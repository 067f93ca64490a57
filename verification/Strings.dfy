/** Splitting a string at a delimiter, and replacing one substring by another. */
module Strings {
  import opened Arith

  lemma SliceSlice(s: string, a: nat, b: nat, i: nat, j: nat)
    requires a <= b <= |s| && i <= j <= b - a
    ensures s[a..b][i..j] == s[a + i..a + j]
  {
    forall k | 0 <= k < j - i
      ensures s[a..b][i..j][k] == s[a + i..a + j][k]
    {
      assert s[a..b][i + k] == s[a + (i + k)];
    }
  }

  lemma ThreeSlices(s: string, a: nat, b: nat, c: nat)
    requires a <= b <= c <= |s|
    ensures s[a..] == s[a..b] + s[b..c] + s[c..]
  {
  }

  /** d occurs in s at position i. */
  predicate OccursAt(s: string, d: string, i: nat) {
    i + |d| <= |s| && s[i..i + |d|] == d
  }

  /** The first occurrence of d in s at or after `from`; above |s| when there is none. */
  function IndexOf(s: string, d: string, from: nat): (loc: nat)
    ensures loc <= |s| ==> from <= loc && OccursAt(s, d, loc)
    decreases |s| - from
  {
    if from + |d| > |s| then |s| + 1
    else if OccursAt(s, d, from) then from
    else IndexOf(s, d, from + 1)
  }

  lemma {:induction false} NoneBefore(s: string, d: string, from: nat, i: nat)
    requires from <= i < IndexOf(s, d, from)
    ensures !OccursAt(s, d, i)
    decreases i - from
  {
    if from < i {
      NoneBefore(s, d, from + 1, i);
    }
  }

  /** std::string::find. */
  method Find(s: string, d: string, from: nat) returns (loc: nat)
    ensures loc == IndexOf(s, d, from)
  {
    loc := from;
    while loc + |d| <= |s|
      invariant from <= loc && IndexOf(s, d, from) == IndexOf(s, d, loc)
    {
      if s[loc..loc + |d|] == d {
        return;
      }
      loc := loc + 1;
    }
    loc := |s| + 1;
  }

  function Join(parts: seq<string>, d: string): string {
    if |parts| == 0 then "" else if |parts| == 1 then parts[0] else parts[0] + d + Join(parts[1..], d)
  }

  lemma JoinCons(first: string, rest: seq<string>, d: string)
    requires rest != []
    ensures Join([first] + rest, d) == first + d + Join(rest, d)
  {
    assert ([first] + rest)[1..] == rest;
  }

  /** An empty delimiter cuts behind every character. */
  function Extra(d: string): nat {
    if |d| > 0 then 0 else 1
  }

  /** The parts of s from position curr on, at most k of them. */
  function PartsFrom(s: string, d: string, curr: nat, k: nat): (parts: seq<string>)
    requires curr <= |s| && k >= 1
    ensures parts != []
    decreases k
  {
    var loc := if curr < |s| then IndexOf(s, d, curr) else |s| + 1;
    if k == 1 || loc > |s| then [s[curr..]]
    else FirstIsHere(s, d, curr); [s[curr..loc + Extra(d)]] + PartsFrom(s, d, loc + Extra(d) + |d|, k - 1)
  }

  lemma FirstIsHere(s: string, d: string, curr: nat)
    requires curr < |s|
    ensures d == "" ==> IndexOf(s, d, curr) == curr
  {
    if d == "" {
      assert OccursAt(s, d, curr);
    }
  }

  /** There is another delimiter to cut at, and parts to spend. */
  predicate Continues(s: string, d: string, curr: nat, k: nat) {
    k > 1 && curr < |s| && IndexOf(s, d, curr) <= |s|
  }

  lemma PartsStep(s: string, d: string, curr: nat, k: nat) returns (cut: nat, rest: seq<string>)
    requires Continues(s, d, curr, k)
    ensures curr <= IndexOf(s, d, curr) <= cut && cut + |d| <= |s|
    ensures cut == IndexOf(s, d, curr) + Extra(d) && s[cut..cut + |d|] == d
    ensures rest == PartsFrom(s, d, cut + |d|, k - 1) != [] && PartsFrom(s, d, curr, k) == [s[curr..cut]] + rest
  {
    FirstIsHere(s, d, curr);
    cut := IndexOf(s, d, curr) + Extra(d);
    rest := PartsFrom(s, d, cut + |d|, k - 1);
  }

  lemma PartsLast(s: string, d: string, curr: nat, k: nat)
    requires curr <= |s| && k >= 1 && !Continues(s, d, curr, k)
    ensures PartsFrom(s, d, curr, k) == [s[curr..]]
  {
  }

  /** No more parts than characters, and one. */
  function Limit(s: string, maxparts: int): nat {
    if maxparts < 1 then |s| + 1 else maxparts
  }

  function Parts(s: string, d: string, maxparts: int): seq<string> {
    PartsFrom(s, d, 0, Limit(s, maxparts))
  }

  lemma EmptyParts(s: string, d: string, maxparts: int)
    requires s == ""
    ensures Parts(s, d, maxparts) == [""]
  {
    assert s[0..] == "";
  }

  /** Splits str at delim into at most maxparts parts, or without limit when maxparts is below one. */
  method Split(str: string, delim: string, maxparts: int) returns (parts: seq<string>)
    ensures parts == Parts(str, delim, maxparts)
  {
    hide PartsFrom, IndexOf, OccursAt, Splitting, Parts;
    ghost var all := Parts(str, delim, maxparts);
    if |str| == 0 {
      EmptyParts(str, delim, maxparts);
      return [""];
    }
    SplitStart(str, delim, maxparts);
    var extra := if |delim| > 0 then 0 else 1;
    var countdown: nat := if maxparts < 1 then |str| + 1 else maxparts;
    var curr: nat := 0;
    parts := [];
    var endedinsplit := true;
    while countdown > 1 && curr < |str|
      invariant endedinsplit && countdown >= 1 && curr <= |str|
      invariant Splitting(all, parts, str, delim, curr, countdown)
    {
      var loc := Find(str, delim, curr);
      if loc <= |str| {
        NextPart(all, parts, str, delim, curr, countdown, loc + extra);
        var sub := str[curr..loc + extra];
        curr := loc + extra + |delim|;
        parts := parts + [sub];
      } else {
        LastPart(all, parts, str, delim, curr, countdown);
        var sub := str[curr..];
        curr := |str|;
        parts := parts + [sub];
        endedinsplit := false;
        break;
      }
      countdown := countdown - 1;
    }
    if endedinsplit {
      LastPart(all, parts, str, delim, curr, countdown);
    }
    if curr < |str| {
      parts := parts + [str[curr..]];
    } else if endedinsplit {
      assert str[curr..] == "";
      parts := parts + [""];
    }
  }

  /** The parts found so far, and those still to come. */
  ghost predicate Splitting(all: seq<string>, parts: seq<string>, s: string, d: string, curr: nat, k: nat) {
    curr <= |s| && k >= 1 && parts <= all && all[|parts|..] == PartsFrom(s, d, curr, k)
  }

  lemma SplitStart(s: string, d: string, maxparts: int)
    ensures Splitting(Parts(s, d, maxparts), [], s, d, 0, if maxparts < 1 then |s| + 1 else maxparts)
  {
  }

  lemma NextPart(all: seq<string>, parts: seq<string>, s: string, d: string, curr: nat, k: nat, cut: nat)
    requires Splitting(all, parts, s, d, curr, k) && Continues(s, d, curr, k) && cut == IndexOf(s, d, curr) + Extra(d)
    ensures curr <= cut && cut + |d| <= |s| && Splitting(all, parts + [s[curr..cut]], s, d, cut + |d|, k - 1)
  {
    hide PartsFrom, IndexOf, OccursAt, Extra;
    var c, rest := PartsStep(s, d, curr, k);
    HeadOfRest(all, parts, s[curr..cut], rest);
  }

  lemma LastPart(all: seq<string>, parts: seq<string>, s: string, d: string, curr: nat, k: nat)
    requires Splitting(all, parts, s, d, curr, k) && !Continues(s, d, curr, k)
    ensures all == parts + [s[curr..]]
  {
    hide PartsFrom, IndexOf, OccursAt, Extra;
    PartsLast(s, d, curr, k);
    HeadOfRest(all, parts, s[curr..], []);
  }

  lemma HeadOfRest(all: seq<string>, parts: seq<string>, first: string, rest: seq<string>)
    requires parts <= all && all[|parts|..] == [first] + rest
    ensures parts + [first] <= all && all[|parts + [first]|..] == rest
    ensures rest == [] ==> all == parts + [first]
  {
    var n := |parts|;
    assert all[n] == all[n..][0] == first;
    assert all[n + 1..] == all[n..][1..];
    assert all == all[..n] + all[n..];
  }

  /** Joining the parts with the delimiter gives back the string, whatever the limit. */
  lemma {:induction false} JoinOfParts(s: string, d: string, curr: nat, k: nat)
    requires curr <= |s| && k >= 1
    ensures Join(PartsFrom(s, d, curr, k), d) == s[curr..]
    ensures |PartsFrom(s, d, curr, k)| <= k
    decreases k
  {
    hide PartsFrom, IndexOf, OccursAt, Join, Extra;
    if Continues(s, d, curr, k) {
      var cut, rest := PartsStep(s, d, curr, k);
      JoinOfParts(s, d, cut + |d|, k - 1);
      JoinCons(s[curr..cut], rest, d);
      ThreeSlices(s, curr, cut, cut + |d|);
    } else {
      PartsLast(s, d, curr, k);
      JoinOne(s[curr..], d);
    }
  }

  lemma JoinOne(s: string, d: string)
    ensures Join([s], d) == s
  {
  }

  lemma SplitJoin(s: string, d: string, maxparts: int)
    ensures Join(Parts(s, d, maxparts), d) == s
    ensures maxparts >= 1 ==> 1 <= |Parts(s, d, maxparts)| <= maxparts
  {
    JoinOfParts(s, d, 0, Limit(s, maxparts));
    assert s[0..] == s;
  }

  /** d occurs nowhere in s. */
  ghost predicate Without(s: string, d: string) {
    forall i: nat :: !OccursAt(s, d, i)
  }

  /** Before the end of the first occurrence there is none. */
  lemma BeforeFirst(s: string, d: string, curr: nat, loc: nat)
    requires d != "" && curr <= loc <= |s| && loc < IndexOf(s, d, curr) + |d|
    ensures Without(s[curr..loc], d)
  {
    hide OccursAt, IndexOf;
    forall i: nat
      ensures !OccursAt(s[curr..loc], d, i)
    {
      if OccursAt(s[curr..loc], d, i) {
        OccursOutside(s, curr, loc, d, i);
        NoneBefore(s, d, curr, curr + i);
      }
    }
  }

  lemma OccursOutside(s: string, a: nat, b: nat, d: string, i: nat)
    requires a <= b <= |s| && OccursAt(s[a..b], d, i)
    ensures i + |d| <= b - a && OccursAt(s, d, a + i)
  {
    SliceSlice(s, a, b, i, i + |d|);
  }

  /** With enough parts to spend, no part contains the delimiter. */
  lemma {:induction false} PartsWithout(s: string, d: string, curr: nat, k: nat)
    requires d != "" && curr <= |s| && k > |s| - curr
    ensures forall i :: 0 <= i < |PartsFrom(s, d, curr, k)| ==> Without(PartsFrom(s, d, curr, k)[i], d)
    decreases k
  {
    var loc := if curr < |s| then IndexOf(s, d, curr) else |s| + 1;
    if loc > |s| {
      assert s[curr..] == s[curr..|s|];
      BeforeFirst(s, d, curr, |s|);
    } else {
      BeforeFirst(s, d, curr, loc);
      PartsWithout(s, d, loc + |d|, k - 1);
      assert s[curr..loc + Extra(d)] == s[curr..loc];
    }
  }

  lemma UnlimitedSplit(s: string, d: string, maxparts: int)
    requires d != "" && maxparts < 1
    ensures forall i :: 0 <= i < |Parts(s, d, maxparts)| ==> Without(Parts(s, d, maxparts)[i], d)
  {
    PartsWithout(s, d, 0, Limit(s, maxparts));
  }

  /** Whatever the limit, only the last part can contain the delimiter. */
  lemma {:induction false} AllButLastWithout(s: string, d: string, curr: nat, k: nat)
    requires d != "" && curr <= |s| && k >= 1
    ensures forall i :: 0 <= i < |PartsFrom(s, d, curr, k)| - 1 ==> Without(PartsFrom(s, d, curr, k)[i], d)
    decreases k
  {
    hide Without;
    var loc := if curr < |s| then IndexOf(s, d, curr) else |s| + 1;
    if k > 1 && loc <= |s| {
      BeforeFirst(s, d, curr, loc);
      AllButLastWithout(s, d, loc + |d|, k - 1);
      var parts := PartsFrom(s, d, curr, k);
      assert parts == [s[curr..loc]] + PartsFrom(s, d, loc + |d|, k - 1);
    }
  }

  lemma LimitedSplit(s: string, d: string, maxparts: int)
    requires d != ""
    ensures forall i :: 0 <= i < |Parts(s, d, maxparts)| - 1 ==> Without(Parts(s, d, maxparts)[i], d)
  {
    AllButLastWithout(s, d, 0, Limit(s, maxparts));
  }

  /** The text up to a cut, and almost all of the delimiter behind it, contain no delimiter: the cut is the first. */
  lemma BeforeCut(s: string, d: string, curr: nat, cut: nat)
    requires d != "" && curr <= cut == IndexOf(s, d, curr) <= |s|
    ensures Without(s[curr..cut] + d[..|d| - 1], d)
  {
    hide Without, IndexOf;
    assert s[cut..cut + |d|] == d;
    hide OccursAt;
    BeforeFirst(s, d, curr, cut + |d| - 1);
    GluedSlices(s, d, curr, cut);
  }

  lemma GluedSlices(s: string, d: string, curr: nat, cut: nat)
    requires d != "" && curr <= cut && cut + |d| <= |s| && s[cut..cut + |d|] == d
    ensures s[curr..cut] + d[..|d| - 1] == s[curr..cut + |d| - 1]
  {
    SliceSlice(s, cut, cut + |d|, 0, |d| - 1);
    assert s[curr..cut + |d| - 1] == s[curr..cut] + s[cut..cut + |d| - 1];
  }

  lemma OccursInSlice(s: string, a: nat, b: nat, d: string, p: nat)
    requires a <= p && p + |d| <= b <= |s| && OccursAt(s, d, p)
    ensures !Without(s[a..b], d)
  {
    SliceSlice(s, a, b, p - a, p - a + |d|);
    assert OccursAt(s[a..b], d, p - a);
  }

  /** What cutting at first delimiters means for the parts themselves, k being the limit. */
  ghost predicate CutAtFirst(parts: seq<string>, d: string, k: nat)
    requires d != ""
  {
    && 1 <= |parts| <= k
    && (forall i :: 0 <= i < |parts| - 1 ==> Without(parts[i] + d[..|d| - 1], d))
    && (|parts| < k ==> Without(parts[|parts| - 1], d))
  }

  lemma {:induction false} PartsAreCuts(s: string, d: string, curr: nat, k: nat)
    requires d != "" && curr <= |s| && k >= 1
    ensures CutAtFirst(PartsFrom(s, d, curr, k), d, k)
    decreases k
  {
    hide PartsFrom, IndexOf, OccursAt, Without;
    if Continues(s, d, curr, k) {
      var cut, rest := PartsStep(s, d, curr, k);
      assert Extra(d) == 0;
      BeforeCut(s, d, curr, cut);
      PartsAreCuts(s, d, cut + |d|, k - 1);
    } else {
      PartsLast(s, d, curr, k);
      if k > 1 {
        NothingToCut(s, d, curr);
      }
    }
  }

  lemma NothingToCut(s: string, d: string, curr: nat)
    requires d != "" && curr <= |s| && (curr == |s| || IndexOf(s, d, curr) > |s|)
    ensures Without(s[curr..], d)
  {
    assert s[curr..] == s[curr..|s|];
    if curr < |s| {
      BeforeFirst(s, d, curr, |s|);
    }
  }

  /** A text without the delimiter is not cut. */
  lemma NoCut(s: string, d: string, curr: nat)
    requires curr <= |s| && Without(s[curr..], d)
    ensures IndexOf(s, d, curr) > |s|
  {
    assert s[curr..] == s[curr..|s|];
    var loc := IndexOf(s, d, curr);
    if loc <= |s| {
      OccursInSlice(s, curr, |s|, d, loc);
    }
  }

  /** A cut that fits is the first one. */
  lemma CutIsFirst(s: string, d: string, curr: nat, first: string)
    requires d != "" && curr + |first| + |d| <= |s| && s[curr..curr + |first| + |d|] == first + d
    requires Without(first + d[..|d| - 1], d)
    ensures IndexOf(s, d, curr) == curr + |first|
  {
    var cut, loc := curr + |first|, IndexOf(s, d, curr);
    assert s[cut..cut + |d|] == (first + d)[|first|..];
    assert OccursAt(s, d, cut);
    assert first + d[..|d| - 1] == (first + d)[..|first| + |d| - 1] == s[curr..cut + |d| - 1];
    if loc > cut {
      NoneBefore(s, d, curr, cut);
    } else if loc < cut {
      OccursInSlice(s, curr, cut + |d| - 1, d, loc);
    }
  }

  lemma {:induction false} CutsAreParts(s: string, d: string, curr: nat, k: nat, parts: seq<string>)
    requires d != "" && curr <= |s| && CutAtFirst(parts, d, k) && Join(parts, d) == s[curr..]
    ensures parts == PartsFrom(s, d, curr, k)
    decreases k
  {
    hide PartsFrom, IndexOf, OccursAt, Without;
    if |parts| == 1 {
      if k > 1 {
        NoCut(s, d, curr);
      }
      PartsLast(s, d, curr, k);
    } else {
      var first, rest := parts[0], parts[1..];
      assert s[curr..] == first + d + Join(rest, d);
      assert s[curr..][..|first| + |d|] == first + d;
      assert s[curr..curr + |first| + |d|] == s[curr..][..|first| + |d|];
      CutIsFirst(s, d, curr, first);
      var cut, later := PartsStep(s, d, curr, k);
      assert Extra(d) == 0;
      assert s[cut + |d|..] == s[curr..][|first| + |d|..] == Join(rest, d);
      assert s[curr..cut] == s[curr..][..|first|] == first;
      CutsAreParts(s, d, cut + |d|, k - 1, rest);
    }
  }

  lemma {:induction false} JoinIsLong(parts: seq<string>, d: string)
    requires d != "" && parts != []
    ensures |parts| <= |Join(parts, d)| + 1
  {
    if |parts| > 1 {
      JoinIsLong(parts[1..], d);
    }
  }

  /**
   For a nonempty delimiter the parts are the only list that joins to the string, keeps to the limit, is cut at
   first delimiters, and leaves a delimiter uncut only in the last part and only when the limit is reached.
   */
  lemma SplitIsExact(s: string, d: string, maxparts: int, parts: seq<string>)
    requires d != ""
    ensures parts == Parts(s, d, maxparts) <==>
      && parts != [] && Join(parts, d) == s && (maxparts >= 1 ==> |parts| <= maxparts)
      && (forall i :: 0 <= i < |parts| - 1 ==> Without(parts[i] + d[..|d| - 1], d))
      && (maxparts < 1 || |parts| < maxparts ==> Without(parts[|parts| - 1], d))
  {
    hide PartsFrom, Join, Without;
    var k := Limit(s, maxparts);
    assert s[0..] == s;
    PartsAreCuts(s, d, 0, k);
    JoinOfParts(s, d, 0, k);
    if maxparts < 1 {
      UnlimitedSplit(s, d, maxparts);
    }
    if parts != [] && Join(parts, d) == s {
      JoinIsLong(parts, d);
      if CutAtFirst(parts, d, k) {
        CutsAreParts(s, d, 0, k, parts);
      }
    }
  }

  /** With an empty delimiter the parts are single characters, and what is left when the limit is reached. */
  lemma {:induction false} PartsOfCharacters(s: string, curr: nat, k: nat)
    requires curr <= |s| && k >= 1
    ensures var parts := PartsFrom(s, "", curr, k);
      && |parts| == Min(k, |s| - curr + 1)
      && (forall i :: 0 <= i < |parts| - 1 ==> parts[i] == [s[curr + i]])
      && parts[|parts| - 1] == s[curr + |parts| - 1..]
    decreases k
  {
    if k > 1 && curr < |s| {
      FirstIsHere(s, "", curr);
      PartsOfCharacters(s, curr + 1, k - 1);
      var rest := PartsFrom(s, "", curr + 1, k - 1);
      assert s[curr..curr + 1] == [s[curr]];
      assert PartsFrom(s, "", curr, k) == [[s[curr]]] + rest;
    } else {
      hide IndexOf;
      assert PartsFrom(s, "", curr, k) == [s[curr..]];
    }
  }

  lemma SplitCharacters(s: string, maxparts: int)
    ensures var parts := Parts(s, "", maxparts);
      && |parts| == (if maxparts < 1 then |s| + 1 else Min(maxparts, |s| + 1))
      && (forall i :: 0 <= i < |parts| - 1 ==> parts[i] == [s[i]])
      && parts[|parts| - 1] == s[|parts| - 1..]
  {
    PartsOfCharacters(s, 0, Limit(s, maxparts));
  }

  // ---------- replace ----------

  /** Searching behind a prefix is searching the rest. */
  lemma {:induction false} IndexBehind(a: string, t: string, d: string, i: nat)
    ensures IndexOf(a + t, d, |a| + i) == |a| + IndexOf(t, d, i)
    decreases |t| - i
  {
    if i + |d| <= |t| {
      assert (a + t)[|a| + i..|a| + i + |d|] == t[i..i + |d|];
      IndexBehind(a, t, d, i + 1);
    }
  }

  lemma IndexInRest(s: string, d: string, curr: nat)
    requires curr <= |s|
    ensures IndexOf(s, d, curr) == curr + IndexOf(s[curr..], d, 0)
  {
    assert s == s[..curr] + s[curr..];
    IndexBehind(s[..curr], s[curr..], d, 0);
  }

  /** The loop of replace, entered with this text and position, turns at least n times. */
  predicate Turns(str: string, pos: nat, from: string, to: string, n: nat)
    decreases n
  {
    n == 0 ||
    var loc := IndexOf(str, from, pos);
    loc <= |str| && Turns(str[..loc] + to + str[loc + |from|..], loc + |to|, from, to, n - 1)
  }

  /** Every turn uses up some of the text behind the position. */
  lemma {:induction false} TurnsBounded(str: string, pos: nat, from: string, to: string, n: nat)
    requires from != "" && pos <= |str| && Turns(str, pos, from, to, n)
    ensures n <= |str| - pos
    decreases n
  {
    if n > 0 {
      var loc := IndexOf(str, from, pos);
      TurnsBounded(str[..loc] + to + str[loc + |from|..], loc + |to|, from, to, n - 1);
    }
  }

  /** The empty string is found where the search starts, over and over. */
  lemma {:induction false} EmptyTurns(str: string, pos: nat, to: string, n: nat)
    requires pos <= |str|
    ensures Turns(str, pos, "", to, n)
    decreases n
  {
    if n > 0 {
      assert str[pos..pos] == "";
      EmptyTurns(str[..pos] + to + str[pos..], pos + |to|, to, n - 1);
    }
  }

  /** replace terminates if and only if the string searched for is not empty. */
  lemma ReplaceTerminates(str: string, from: string, to: string)
    ensures (exists n: nat :: !Turns(str, 0, from, to, n)) <==> from != ""
  {
    if from == "" {
      forall n: nat
        ensures Turns(str, 0, from, to, n)
      {
        EmptyTurns(str, 0, to, n);
      }
    } else {
      var n := |str| + 1;
      if Turns(str, 0, from, to, n) {
        TurnsBounded(str, 0, from, to, n);
      }
      assert !Turns(str, 0, from, to, n);
    }
  }

  /** Replaces every occurrence, left to right; the text put in is not searched again. */
  method Replace(s: string, from: string, to: string) returns (str: string)
    requires from != ""
    ensures str == Join(Parts(s, from, 0), to)
  {
    hide PartsFrom, IndexOf, Join, OccursAt, Replacing;
    str := s;
    var pos: nat := 0;
    var len := |from|;
    ghost var curr: nat, k: nat := 0, Limit(s, 0);
    ghost var all := Join(Parts(s, from, 0), to);
    ReplaceStart(s, from, to);
    var loc := Find(str, from, pos);
    while loc <= |str|
      invariant Replacing(str, pos, s, from, to, curr, k, all) && loc == IndexOf(str, from, pos)
      decreases |s| - curr
    {
      ghost var at := ReplaceStep(str, pos, s, from, to, curr, k, all);
      str := str[..loc] + to + str[loc + len..];
      pos := loc + |to|;
      curr, k := at + len, k - 1;
      loc := Find(str, from, pos);
    }
    ReplaceEnd(str, pos, s, from, to, curr, k, all);
  }

  /** Up to pos the text is finished; from there on it is the rest of the original from curr on. */
  ghost predicate Replacing(str: string, pos: nat, s: string, from: string, to: string, curr: nat, k: nat,
                            all: string) {
    && pos <= |str| && curr <= |s| && k > |s| - curr && str[pos..] == s[curr..]
    && all == str[..pos] + Join(PartsFrom(s, from, curr, k), to)
  }

  lemma ReplaceStart(s: string, from: string, to: string)
    ensures Replacing(s, 0, s, from, to, 0, Limit(s, 0), Join(Parts(s, from, 0), to))
  {
    hide PartsFrom, Join;
    assert s[..0] == "";
  }

  lemma ReplaceStep(str: string, pos: nat, s: string, from: string, to: string, curr: nat, k: nat, all: string)
      returns (at: nat)
    requires from != "" && Replacing(str, pos, s, from, to, curr, k, all) && IndexOf(str, from, pos) <= |str|
    ensures var loc := IndexOf(str, from, pos);
      && pos <= loc && loc + |from| <= |str| && curr <= at && at + |from| <= |s| && k > 0
      && Replacing(str[..loc] + to + str[loc + |from|..], loc + |to|, s, from, to, at + |from|, k - 1, all)
  {
    hide PartsFrom, IndexOf, Join, OccursAt;
    var loc := IndexOf(str, from, pos);
    IndexInRest(str, from, pos);
    IndexInRest(s, from, curr);
    RoomForOne(s, from, curr);
    var rest;
    at, rest := PartsStep(s, from, curr, k);
    JoinCons(s[curr..at], rest, to);
    var next := str[..loc] + to + str[loc + |from|..];
    assert str[pos..][loc - pos + |from|..] == s[curr..][at - curr + |from|..];
    assert next[loc + |to|..] == str[loc + |from|..] == s[at + |from|..];
    assert str[..loc] == str[..pos] + str[pos..][..loc - pos];
    assert s[curr..][..at - curr] == s[curr..at];
    assert next[..loc + |to|] == str[..pos] + s[curr..at] + to;
    assert str[..pos] + (s[curr..at] + to + Join(rest, to)) == next[..loc + |to|] + Join(rest, to);
  }

  lemma RoomForOne(s: string, d: string, curr: nat)
    requires d != "" && IndexOf(s, d, curr) <= |s|
    ensures curr < |s|
  {
  }

  lemma ReplaceEnd(str: string, pos: nat, s: string, from: string, to: string, curr: nat, k: nat, all: string)
    requires from != "" && Replacing(str, pos, s, from, to, curr, k, all) && IndexOf(str, from, pos) > |str|
    ensures str == all
  {
    hide PartsFrom, IndexOf, Join;
    IndexInRest(str, from, pos);
    IndexInRest(s, from, curr);
    PartsLast(s, from, curr, k);
    JoinOne(s[curr..], to);
    assert str == str[..pos] + str[pos..];
  }
}
