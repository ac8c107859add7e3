/** The part of Python's `re` that the panic parser uses: a sequence of items, matched with
    backtracking in Python's order of preference. */
module Regex {
  import opened Options
  import opened Text

  datatype Class = Exactly(c: char) | HexDigit | Space | AnyButNewline | NameChar

  predicate In(c: char, cls: Class) {
    match cls
    case Exactly(d) => c == d
    case HexDigit => IsHex(c)
    case Space => IsSpace(c)
    case AnyButNewline => c != '\n'
    case NameChar => IsNameChar(c)
  }

  /** All characters from i to j are of the class. */
  predicate AllIn(s: string, i: nat, j: nat, cls: Class)
    requires i <= j <= |s|
  {
    forall k | i <= k < j :: In(s[k], cls)
  }

  datatype Bound = AtMost(n: nat) | Unbounded

  datatype Item =
    | One(cls: Class)
    | Many(cls: Class, min: nat, bound: Bound, greedy: bool)
    | Optional(items: seq<Item>)    // tried before doing without
    | AtEnd                         // `$`: the end, or just before a newline that ends the string

  function Size(re: seq<Item>): nat {
    if re == [] then 0 else ItemSize(re[0]) + Size(re[1..])
  }

  function ItemSize(item: Item): (n: nat)
    ensures n >= 1
  {
    if item.Optional? then 1 + Size(item.items) else 1
  }

  lemma {:induction false} SizeAppend(a: seq<Item>, b: seq<Item>)
    ensures Size(a + b) == Size(a) + Size(b)
  {
    if a == [] {
      assert a + b == b;
    } else {
      assert (a + b)[1..] == a[1..] + b;
      SizeAppend(a[1..], b);
    }
  }

  lemma SizeStep(re: seq<Item>)
    requires re != []
    ensures Size(re[1..]) < Size(re)
    ensures re[0].Optional? ==> Size(re[0].items + re[1..]) < Size(re)
  {
    if re[0].Optional? { SizeAppend(re[0].items, re[1..]); }
  }

  /** How many characters of the class follow one another from i on. */
  function RunLength(cls: Class, s: string, i: nat): (n: nat)
    requires i <= |s|
    ensures i + n <= |s|
    ensures forall k | i <= k < i + n :: In(s[k], cls)
    ensures i + n < |s| ==> !In(s[i + n], cls)
    decreases |s| - i
  {
    if i < |s| && In(s[i], cls) then 1 + RunLength(cls, s, i + 1) else 0
  }

  lemma {:induction false} RunIs(cls: Class, s: string, i: nat, n: nat)
    requires i + n <= |s| && AllIn(s, i, i + n, cls) && (i + n < |s| ==> !In(s[i + n], cls))
    ensures RunLength(cls, s, i) == n
    decreases n
  {
    if n > 0 { RunIs(cls, s, i + 1, n - 1); }
  }

  function Limit(n: nat, bound: Bound): (k: nat)
    ensures k <= n
  {
    if bound.AtMost? && bound.n < n then bound.n else n
  }

  predicate EndsAt(s: string, i: nat)
    requires i <= |s|
  {
    i == |s| || (i == |s| - 1 && s[i] == '\n')
  }

  function Prefix(i: nat, r: Option<seq<nat>>): Option<seq<nat>> {
    if r.Some? then Some([i] + r.value) else None
  }

  /** The match that Python finds from position i: the position after each item in turn. (The items of
      an Optional that was taken count one by one, and one that was not taken leaves no position.) */
  function Match(re: seq<Item>, s: string, i: nat): Option<seq<nat>>
    requires i <= |s|
    decreases Size(re), 0, 0
  {
    if re == [] then Some([])
    else
      SizeStep(re);
      var rest := re[1..];
      match re[0]
      case One(cls) => if i < |s| && In(s[i], cls) then Prefix(i + 1, Match(rest, s, i + 1)) else None
      case AtEnd => if EndsAt(s, i) then Prefix(i, Match(rest, s, i)) else None
      case Optional(items) =>
        var r := Match(items + rest, s, i);
        if r.Some? then r else Match(rest, s, i)
      case Many(cls, min, bound, greedy) =>
        var n := Limit(RunLength(cls, s, i), bound);
        if n < min then None
        else if greedy then TryDown(rest, s, i + min, i + n)
        else TryUp(rest, s, i + min, i + n)
  }

  /** A run that ends at hi, or failing that earlier, down to lo. */
  function TryDown(rest: seq<Item>, s: string, lo: nat, hi: nat): Option<seq<nat>>
    requires lo <= hi <= |s|
    decreases Size(rest), 1, hi
  {
    var r := Prefix(hi, Match(rest, s, hi));
    if r.Some? || lo == hi then r else TryDown(rest, s, lo, hi - 1)
  }

  /** A run that ends at lo, or failing that later, up to hi. */
  function TryUp(rest: seq<Item>, s: string, lo: nat, hi: nat): Option<seq<nat>>
    requires lo <= hi <= |s|
    decreases Size(rest), 1, hi - lo
  {
    var r := Prefix(lo, Match(rest, s, lo));
    if r.Some? || lo == hi then r else TryUp(rest, s, lo + 1, hi)
  }

  // ---- What the engine finds ----

  /** Some match exists, in whatever order of preference. */
  ghost predicate Matches(re: seq<Item>, s: string, i: nat)
    requires i <= |s|
    decreases Size(re), 0
  {
    if re == [] then true
    else
      SizeStep(re);
      var rest := re[1..];
      match re[0]
      case One(cls) => i < |s| && In(s[i], cls) && Matches(rest, s, i + 1)
      case AtEnd => EndsAt(s, i) && Matches(rest, s, i)
      case Optional(items) => Matches(items + rest, s, i) || Matches(rest, s, i)
      case Many(cls, min, bound, _) =>
        SomeEnd(rest, s, i + min, i + Limit(RunLength(cls, s, i), bound))
  }

  /** Backtracking misses nothing: the engine finds a match exactly when there is one. */
  lemma {:induction false} EngineIsExhaustive(re: seq<Item>, s: string, i: nat)
    requires i <= |s|
    ensures Match(re, s, i).Some? <==> Matches(re, s, i)
    decreases Size(re), 0, 0
  {
    if re != [] {
      SizeStep(re);
      var rest := re[1..];
      match re[0]
      case One(cls) => if i < |s| { EngineIsExhaustive(rest, s, i + 1); }
      case AtEnd => EngineIsExhaustive(rest, s, i);
      case Optional(items) =>
        EngineIsExhaustive(items + rest, s, i);
        EngineIsExhaustive(rest, s, i);
      case Many(cls, min, bound, greedy) =>
        var n := Limit(RunLength(cls, s, i), bound);
        RunIsExhaustive(rest, s, i + min, i + n, greedy);
        assert Matches(re, s, i) <==> SomeEnd(rest, s, i + min, i + n);
    }
  }

  /** Some end of a run, from lo to hi, lets the rest match. */
  ghost predicate SomeEnd(rest: seq<Item>, s: string, lo: nat, hi: nat)
    requires hi <= |s|
    decreases Size(rest), 1
  {
    exists j: nat :: lo <= j <= hi && Matches(rest, s, j)
  }

  lemma {:induction false} RunIsExhaustive(rest: seq<Item>, s: string, lo: nat, hi: nat, greedy: bool)
    requires hi <= |s|
    ensures lo <= hi ==>
              ((if greedy then TryDown(rest, s, lo, hi) else TryUp(rest, s, lo, hi)).Some?
               <==> SomeEnd(rest, s, lo, hi))
    decreases Size(rest), 2
  {
    if lo <= hi {
      if greedy { DownIsExhaustive(rest, s, lo, hi); } else { UpIsExhaustive(rest, s, lo, hi); }
    }
  }

  lemma {:induction false} DownIsExhaustive(rest: seq<Item>, s: string, lo: nat, hi: nat)
    requires lo <= hi <= |s|
    ensures TryDown(rest, s, lo, hi).Some? <==> SomeEnd(rest, s, lo, hi)
    decreases Size(rest), 1, hi
  {
    EngineIsExhaustive(rest, s, hi);
    if lo < hi { DownIsExhaustive(rest, s, lo, hi - 1); }
  }

  lemma {:induction false} UpIsExhaustive(rest: seq<Item>, s: string, lo: nat, hi: nat)
    requires lo <= hi <= |s|
    ensures TryUp(rest, s, lo, hi).Some? <==> SomeEnd(rest, s, lo, hi)
    decreases Size(rest), 1, hi - lo
  {
    EngineIsExhaustive(rest, s, lo);
    if lo < hi { UpIsExhaustive(rest, s, lo + 1, hi); }
  }

  // ---- One item at a time ----

  lemma MatchOne(cls: Class, rest: seq<Item>, s: string, i: nat)
    requires i <= |s|
    ensures Match([One(cls)] + rest, s, i) ==
            if i < |s| && In(s[i], cls) then Prefix(i + 1, Match(rest, s, i + 1)) else None
  {
    assert ([One(cls)] + rest)[1..] == rest;
  }

  lemma MatchAtEnd(rest: seq<Item>, s: string, i: nat)
    requires i <= |s|
    ensures Match([AtEnd] + rest, s, i) == if EndsAt(s, i) then Prefix(i, Match(rest, s, i)) else None
  {
    assert ([AtEnd] + rest)[1..] == rest;
  }

  /** The dollar sign matches at the end, and before a newline that ends the string. */
  lemma DollarIff(s: string, i: nat)
    requires i <= |s|
    ensures Match([AtEnd], s, i).Some? <==> s[i..] == "" || s[i..] == "\n"
  {
    assert [AtEnd] + [] == [AtEnd];
    MatchAtEnd([], s, i);
  }

  lemma MatchOptional(items: seq<Item>, rest: seq<Item>, s: string, i: nat)
    requires i <= |s|
    ensures Match([Optional(items)] + rest, s, i) ==
            if Match(items + rest, s, i).Some? then Match(items + rest, s, i) else Match(rest, s, i)
  {
    assert ([Optional(items)] + rest)[1..] == rest;
  }

  lemma MatchMany(cls: Class, min: nat, bound: Bound, greedy: bool, rest: seq<Item>, s: string, i: nat)
    requires i <= |s|
    ensures var n := Limit(RunLength(cls, s, i), bound);
      Match([Many(cls, min, bound, greedy)] + rest, s, i) ==
      if n < min then None
      else if greedy then TryDown(rest, s, i + min, i + n)
      else TryUp(rest, s, i + min, i + n)
  {
    assert ([Many(cls, min, bound, greedy)] + rest)[1..] == rest;
  }

  /** If no shorter run lets the rest match, a greedy run is all or nothing. */
  lemma {:induction false} OnlyTheLongest(rest: seq<Item>, s: string, lo: nat, hi: nat)
    requires lo <= hi <= |s|
    requires forall j: nat | lo <= j < hi :: Match(rest, s, j).None?
    ensures TryDown(rest, s, lo, hi) == Prefix(hi, Match(rest, s, hi))
  {
    if lo < hi { NoneBelow(rest, s, lo, hi - 1); }
  }

  lemma {:induction false} NoneBelow(rest: seq<Item>, s: string, lo: nat, hi: nat)
    requires lo <= hi <= |s|
    requires forall j: nat | lo <= j <= hi :: Match(rest, s, j).None?
    ensures TryDown(rest, s, lo, hi).None?
  {
    if lo < hi { NoneBelow(rest, s, lo, hi - 1); }
  }

  /** If the rest matches nowhere inside the whole run, a greedy item takes the whole run or fails. */
  lemma WholeRunOrNothing(cls: Class, min: nat, bound: Bound, rest: seq<Item>, s: string, i: nat)
    requires i <= |s|
    requires forall j: nat | i <= j < i + RunLength(cls, s, i) :: Match(rest, s, j).None?
    ensures var n := RunLength(cls, s, i);
      Match([Many(cls, min, bound, true)] + rest, s, i) ==
      if min <= n && (bound.AtMost? ==> n <= bound.n) then Prefix(i + n, Match(rest, s, i + n)) else None
  {
    MatchMany(cls, min, bound, true, rest, s, i);
    hide Match, TryDown, RunLength;
    var n := Limit(RunLength(cls, s, i), bound);
    if min <= n { OnlyTheLongest(rest, s, i + min, i + n); }
  }

  /** A lazy run stops at the first place that lets the rest match. */
  lemma {:induction false} TheShortest(rest: seq<Item>, s: string, lo: nat, e: nat, hi: nat)
    requires lo <= e <= hi <= |s|
    requires forall j: nat | lo <= j < e :: Match(rest, s, j).None?
    requires Match(rest, s, e).Some?
    ensures TryUp(rest, s, lo, hi) == Prefix(e, Match(rest, s, e))
    decreases hi - lo
  {
    if lo < e { TheShortest(rest, s, lo + 1, e, hi); }
  }

  /** `re.search`: the first position from which there is a match. */
  function Search(re: seq<Item>, s: string, from: nat): Option<(nat, seq<nat>)>
    requires from <= |s|
    decreases |s| - from
  {
    var r := Match(re, s, from);
    if r.Some? then Some((from, r.value)) else if from == |s| then None else Search(re, s, from + 1)
  }

  lemma {:induction false} SearchFindsTheFirst(re: seq<Item>, s: string, from: nat)
    requires from <= |s|
    ensures var r := Search(re, s, from);
      && (r.Some? ==>
            && from <= r.value.0 <= |s| && Match(re, s, r.value.0) == Some(r.value.1)
            && forall j | from <= j < r.value.0 :: !Matches(re, s, j))
      && (r.None? ==> forall j | from <= j <= |s| :: !Matches(re, s, j))
    decreases |s| - from
  {
    EngineIsExhaustive(re, s, from);
    if from < |s| { SearchFindsTheFirst(re, s, from + 1); }
  }

  // ---- What a match consists of ----

  /** The item accounts for the characters from i to j. */
  ghost predicate Accounts(item: Item, s: string, i: nat, j: nat)
    requires !item.Optional?
  {
    && i <= j <= |s|
    && match item
       case One(cls) => j == i + 1 && In(s[i], cls)
       case Many(cls, min, bound, _) =>
         min <= j - i && (bound.AtMost? ==> j - i <= bound.n) && AllIn(s, i, j, cls)
       case AtEnd => j == i && EndsAt(s, i)
  }

  /** The positions ps divide the string from i on among the items, an optional part being there with its
      items or not at all. */
  ghost predicate Divides(re: seq<Item>, s: string, i: nat, ps: seq<nat>)
    decreases Size(re)
  {
    if re == [] then ps == []
    else
      SizeStep(re);
      if re[0].Optional? then Divides(re[0].items + re[1..], s, i, ps) || Divides(re[1..], s, i, ps)
      else ps != [] && Accounts(re[0], s, i, ps[0]) && Divides(re[1..], s, ps[0], ps[1..])
  }

  lemma {:induction false} RunAtLeast(cls: Class, s: string, i: nat, j: nat)
    requires i <= j <= |s| && AllIn(s, i, j, cls)
    ensures j - i <= RunLength(cls, s, i)
    decreases j - i
  {
    if i < j { RunAtLeast(cls, s, i + 1, j); }
  }

  /** Any division is a match, in some order of preference. */
  lemma {:induction false} DivisionMatches(re: seq<Item>, s: string, i: nat, ps: seq<nat>)
    requires i <= |s| && Divides(re, s, i, ps)
    ensures Matches(re, s, i)
    decreases Size(re)
  {
    if re != [] {
      SizeStep(re);
      var rest := re[1..];
      if re[0].Optional? {
        if Divides(re[0].items + rest, s, i, ps) {
          DivisionMatches(re[0].items + rest, s, i, ps);
        } else {
          DivisionMatches(rest, s, i, ps);
        }
      } else {
        DivisionMatches(rest, s, ps[0], ps[1..]);
        if re[0].Many? {
          RunAtLeast(re[0].cls, s, i, ps[0]);
          assert SomeEnd(rest, s, i + re[0].min, i + Limit(RunLength(re[0].cls, s, i), re[0].bound));
        }
      }
    }
  }

  /** A match is where its first item ends, and a match of the rest from there. */
  lemma MatchHead(re: seq<Item>, s: string, i: nat)
    requires i <= |s| && re != [] && !re[0].Optional? && Match(re, s, i).Some?
    ensures var ps := Match(re, s, i).value;
      ps != [] && Accounts(re[0], s, i, ps[0]) && Match(re[1..], s, ps[0]) == Some(ps[1..])
  {
    if re[0].Many? {
      var lo, hi := i + re[0].min, i + Limit(RunLength(re[0].cls, s, i), re[0].bound);
      if re[0].greedy { DownHead(re[1..], s, lo, hi); } else { UpHead(re[1..], s, lo, hi); }
    }
  }

  /** A match divides the string among the items. */
  lemma {:induction false} MatchDivides(re: seq<Item>, s: string, i: nat)
    requires i <= |s| && Match(re, s, i).Some?
    ensures Divides(re, s, i, Match(re, s, i).value)
    decreases Size(re)
  {
    if re != [] {
      SizeStep(re);
      var rest := re[1..];
      if !re[0].Optional? {
        MatchHead(re, s, i);
        MatchDivides(rest, s, Match(re, s, i).value[0]);
      } else if Match(re[0].items + rest, s, i).Some? {
        MatchDivides(re[0].items + rest, s, i);
      } else {
        MatchDivides(rest, s, i);
      }
    }
  }

  /** The string can be divided among the items from i on. */
  ghost predicate Divisible(re: seq<Item>, s: string, i: nat) {
    exists ps: seq<nat> :: Divides(re, s, i, ps)
  }

  /** So there is a match exactly when the string can be divided. */
  lemma MatchIffDivisible(re: seq<Item>, s: string, i: nat)
    requires i <= |s|
    ensures Match(re, s, i).Some? <==> Divisible(re, s, i)
  {
    hide Match, Matches, Divides;
    EngineIsExhaustive(re, s, i);
    if Match(re, s, i).Some? {
      MatchDivides(re, s, i);
    } else if Divisible(re, s, i) {
      var ps: seq<nat> :| Divides(re, s, i, ps);
      DivisionMatches(re, s, i, ps);
    }
  }

  lemma {:induction false} DownHead(rest: seq<Item>, s: string, lo: nat, hi: nat)
    requires lo <= hi <= |s|
    ensures var r := TryDown(rest, s, lo, hi);
      r.Some? ==> r.value != [] && lo <= r.value[0] <= hi && Match(rest, s, r.value[0]) == Some(r.value[1..])
    decreases hi
  {
    if lo < hi { DownHead(rest, s, lo, hi - 1); }
  }

  lemma {:induction false} UpHead(rest: seq<Item>, s: string, lo: nat, hi: nat)
    requires lo <= hi <= |s|
    ensures var r := TryUp(rest, s, lo, hi);
      r.Some? ==> r.value != [] && lo <= r.value[0] <= hi && Match(rest, s, r.value[0]) == Some(r.value[1..])
    decreases hi - lo
  {
    if lo < hi { UpHead(rest, s, lo + 1, hi); }
  }

  // ---- Patterns without optional parts ----

  predicate Plain(re: seq<Item>) {
    forall k | 0 <= k < |re| :: !re[k].Optional?
  }

  /** Item k accounts for what lies between the positions k - 1 and k. */
  ghost predicate AccountsAt(re: seq<Item>, s: string, i: nat, ps: seq<nat>, k: nat)
    requires k < |re| == |ps| && Plain(re)
  {
    Accounts(re[k], s, if k == 0 then i else ps[k - 1], ps[k])
  }

  ghost predicate AccountsInTurn(re: seq<Item>, s: string, i: nat, ps: seq<nat>)
    requires Plain(re)
  {
    |ps| == |re| && forall k: nat | k < |re| :: AccountsAt(re, s, i, ps, k)
  }

  /** There is one position for each item. */
  lemma {:induction false} DivisionIsInTurn(re: seq<Item>, s: string, i: nat, ps: seq<nat>)
    requires Plain(re) && i <= |s|
    ensures Divides(re, s, i, ps) <==> AccountsInTurn(re, s, i, ps)
    decreases |re|
  {
    if re != [] && ps != [] {
      InTurnStep(re, s, i, ps);
      if Accounts(re[0], s, i, ps[0]) {
        DivisionIsInTurn(re[1..], s, ps[0], ps[1..]);
      }
      hide AccountsInTurn, Accounts;
    }
  }

  lemma InTurnStep(re: seq<Item>, s: string, i: nat, ps: seq<nat>)
    requires Plain(re) && re != [] && ps != []
    ensures AccountsInTurn(re, s, i, ps) <==>
            Accounts(re[0], s, i, ps[0]) && AccountsInTurn(re[1..], s, ps[0], ps[1..])
  {
    hide Accounts;
    var rest, qs := re[1..], ps[1..];
    if AccountsInTurn(re, s, i, ps) {
      assert AccountsAt(re, s, i, ps, 0);
      forall k: nat | k < |rest|
        ensures AccountsAt(rest, s, ps[0], qs, k)
      {
        assert AccountsAt(re, s, i, ps, k + 1);
      }
    }
    if Accounts(re[0], s, i, ps[0]) && AccountsInTurn(rest, s, ps[0], qs) {
      forall k: nat | k < |re|
        ensures AccountsAt(re, s, i, ps, k)
      {
        if k > 0 { assert AccountsAt(rest, s, ps[0], qs, k - 1); }
      }
    }
  }

  /** A greedy run that ends the pattern is as long as it can be. */
  lemma {:induction false} LastRunIsWhole(re: seq<Item>, s: string, i: nat)
    requires i <= |s| && Plain(re) && re != [] && Match(re, s, i).Some?
    requires re[|re| - 1].Many? && re[|re| - 1].greedy && re[|re| - 1].bound.Unbounded?
    ensures var ps := Match(re, s, i).value;
      ps != [] && ps[|ps| - 1] <= |s|
      && (ps[|ps| - 1] < |s| ==> !In(s[ps[|ps| - 1]], re[|re| - 1].cls))
    decreases |re|
  {
    MatchHead(re, s, i);
    var ps := Match(re, s, i).value;
    if |re| == 1 {
      assert re[1..] == [];
      assert Match([], s, i + RunLength(re[0].cls, s, i)) == Some([]);
    } else {
      assert re[1..][|re| - 2] == re[|re| - 1];
      LastRunIsWhole(re[1..], s, ps[0]);
    }
  }
}
