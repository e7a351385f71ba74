/** The fragment of Go's `regexp` used by the webhooks.

    `Matches` is the denotational meaning of an expression on a span of a text. `Run` is the
    leftmost-first matcher: it explores alternatives in order and lets repetitions take as much
    as they can before giving anything back, and so decides what the groups capture. Every
    repetition in the repository's expressions is over a single character class, which is the
    form `Star` has. */
module Regex {
  import opened Prelude

  datatype Class =
    | Dot                   // .      any character but newline
    | Digit                 // \d
    | Word                  // \w
    | NonSpace              // \S
    | LowerAlnum            // [a-z0-9]
    | OneOf(chars: string)  // [...]

  predicate IsSpace(c: char) { c == '\t' || c == '\n' || c == '\U{000C}' || c == '\r' || c == ' ' }

  predicate IsWordChar(c: char) {
    '0' <= c <= '9' || 'A' <= c <= 'Z' || 'a' <= c <= 'z' || c == '_'
  }

  predicate In(c: char, k: Class) {
    match k
    case Dot => c != '\n'
    case Digit => '0' <= c <= '9'
    case Word => IsWordChar(c)
    case NonSpace => !IsSpace(c)
    case LowerAlnum => 'a' <= c <= 'z' || '0' <= c <= '9'
    case OneOf(cs) => c in cs
  }

  datatype Re =
    | Lit(w: string)
    | Chr(k: Class)
    | Star(k: Class)             // greedy repetition of one character class
    | Cat(a: Re, b: Re)
    | Alt(a: Re, b: Re)          // the left branch is preferred
    | Group(name: string, a: Re)
    | Begin                      // ^
    | End                        // $ without the m flag

  /** `r?`: taking `r` is preferred. */
  function Opt(r: Re): Re { Alt(r, Lit("")) }

  /** `k{n}` */
  function Times(k: Class, n: nat): Re {
    if n == 0 then Lit("") else Cat(Chr(k), Times(k, n - 1))
  }

  predicate AllIn(s: string, i: nat, j: nat, k: Class)
    requires i <= j <= |s|
  {
    forall x :: i <= x < j ==> In(s[x], k)
  }

  predicate LitAt(w: string, s: string, i: nat) {
    i + |w| <= |s| && s[i..i + |w|] == w
  }

  // ---------------------------------------------------------------- meaning

  /** Does `r` match the span `s[i..j]`, seen in the context of all of `s`? */
  ghost predicate Matches(r: Re, s: string, i: nat, j: nat) {
    i <= j <= |s| &&
    match r
    case Lit(w) => LitAt(w, s, i) && j == i + |w|
    case Chr(k) => j == i + 1 && In(s[i], k)
    case Star(k) => AllIn(s, i, j, k)
    case Cat(a, b) => exists m: nat :: Matches(a, s, i, m) && Matches(b, s, m, j)
    case Alt(a, b) => Matches(a, s, i, j) || Matches(b, s, i, j)
    case Group(_, a) => Matches(a, s, i, j)
    case Begin => i == j == 0
    case End => i == j == |s|
  }

  /** Some span that starts at `i` matches. */
  ghost predicate Starts(r: Re, s: string, i: nat) { exists j :: Matches(r, s, i, j) }

  lemma CatMatches(a: Re, b: Re, s: string, i: nat, m: nat, j: nat)
    requires Matches(a, s, i, m) && Matches(b, s, m, j)
    ensures Matches(Cat(a, b), s, i, j)
  {
  }

  lemma CatSplit(a: Re, b: Re, s: string, i: nat, j: nat) returns (m: nat)
    requires Matches(Cat(a, b), s, i, j)
    ensures Matches(a, s, i, m) && Matches(b, s, m, j)
  {
    m :| Matches(a, s, i, m) && Matches(b, s, m, j);
  }

  // ---------------------------------------------------------------- matcher

  datatype Todo =
    | Done
    | Do(r: Re, rest: Todo)
    | Close(name: string, from: nat, rest: Todo)  // end of the group opened at `from`

  datatype Found = Found(end: nat, caps: map<string, string>)

  function Weight(r: Re): nat {
    match r
    case Cat(a, b) => Weight(a) + Weight(b) + 2
    case Alt(a, b) => Weight(a) + Weight(b) + 2
    case Group(_, a) => Weight(a) + 2
    case _ => 1
  }

  function Load(t: Todo): nat {
    match t
    case Done => 0
    case Do(r, rest) => 1 + Weight(r) + Load(rest)
    case Close(_, _, rest) => 1 + Load(rest)
  }

  /** End of the longest run of `k` that starts at `i`. */
  function Longest(k: Class, s: string, i: nat): (e: nat)
    requires i <= |s|
    ensures i <= e <= |s| && AllIn(s, i, e, k)
    ensures e < |s| ==> !In(s[e], k)
    decreases |s| - i
  {
    if i < |s| && In(s[i], k) then Longest(k, s, i + 1) else i
  }

  /** The first way, in priority order, to complete `t` from position `i`. */
  function Run(t: Todo, s: string, i: nat, caps: map<string, string>): Option<Found>
    requires i <= |s|
    decreases Load(t), |s|
  {
    match t
    case Done => Some(Found(i, caps))
    case Close(name, from, rest) =>
      Run(rest, s, i, if from <= i then caps[name := s[from..i]] else caps)
    case Do(Lit(w), rest) => if LitAt(w, s, i) then Run(rest, s, i + |w|, caps) else None
    case Do(Chr(k), rest) => if i < |s| && In(s[i], k) then Run(rest, s, i + 1, caps) else None
    case Do(Star(k), rest) => Backtrack(rest, s, i, Longest(k, s, i), caps)
    case Do(Cat(a, b), rest) =>
      assert Load(Do(b, rest)) == 1 + Weight(b) + Load(rest);
      Run(Do(a, Do(b, rest)), s, i, caps)
    case Do(Alt(a, b), rest) =>
      var first := Run(Do(a, rest), s, i, caps);
      if first.Some? then first else Run(Do(b, rest), s, i, caps)
    case Do(Group(name, a), rest) =>
      assert Load(Close(name, i, rest)) == 1 + Load(rest);
      Run(Do(a, Close(name, i, rest)), s, i, caps)
    case Do(Begin, rest) => if i == 0 then Run(rest, s, i, caps) else None
    case Do(End, rest) => if i == |s| then Run(rest, s, i, caps) else None
  }

  /** Continues from the longest repetition down to the empty one. */
  function Backtrack(rest: Todo, s: string, i: nat, e: nat, caps: map<string, string>): Option<Found>
    requires i <= e <= |s|
    decreases Load(rest), |s| + 1 + e - i
  {
    var here := Run(rest, s, e, caps);
    if here.Some? || e == i then here else Backtrack(rest, s, i, e - 1, caps)
  }

  /** `FindStringSubmatch`: the leftmost start wins. */
  function FindFrom(r: Re, s: string, i: nat): Option<Found>
    requires i <= |s|
    decreases |s| - i
  {
    var here := Run(Do(r, Done), s, i, map[]);
    if here.Some? || i == |s| then here else FindFrom(r, s, i + 1)
  }

  function Find(r: Re, s: string): Option<Found> { FindFrom(r, s, 0) }

  /** The text of a group; a group that took no part reads as empty. */
  function Capture(f: Found, name: string): string {
    if name in f.caps then f.caps[name] else ""
  }

  /** `Match`: an unanchored search. */
  predicate IsMatch(r: Re, s: string) { Find(r, s).Some? }

  // One step of the matcher for each construct, for proofs that follow a concrete expression.

  lemma RunCat(a: Re, b: Re, rest: Todo, s: string, i: nat, caps: map<string, string>)
    requires i <= |s|
    ensures Run(Do(Cat(a, b), rest), s, i, caps) == Run(Do(a, Do(b, rest)), s, i, caps)
  {
  }

  lemma RunGroup(name: string, a: Re, rest: Todo, s: string, i: nat, caps: map<string, string>)
    requires i <= |s|
    ensures Run(Do(Group(name, a), rest), s, i, caps) == Run(Do(a, Close(name, i, rest)), s, i, caps)
  {
  }

  lemma RunClose(name: string, from: nat, rest: Todo, s: string, i: nat, caps: map<string, string>)
    requires from <= i <= |s|
    ensures Run(Close(name, from, rest), s, i, caps) == Run(rest, s, i, caps[name := s[from..i]])
  {
  }

  lemma RunStar(k: Class, rest: Todo, s: string, i: nat, caps: map<string, string>)
    requires i <= |s|
    ensures Run(Do(Star(k), rest), s, i, caps) == Backtrack(rest, s, i, Longest(k, s, i), caps)
  {
  }

  lemma RunLit(w: string, rest: Todo, s: string, i: nat, caps: map<string, string>)
    requires i <= |s|
    ensures Run(Do(Lit(w), rest), s, i, caps) == if LitAt(w, s, i) then Run(rest, s, i + |w|, caps) else None
  {
  }

  lemma RunChr(k: Class, rest: Todo, s: string, i: nat, caps: map<string, string>)
    requires i <= |s|
    ensures Run(Do(Chr(k), rest), s, i, caps) == if i < |s| && In(s[i], k) then Run(rest, s, i + 1, caps) else None
  {
  }

  lemma RunAnchor(rest: Todo, s: string, i: nat, caps: map<string, string>)
    requires i <= |s|
    ensures Run(Do(Begin, rest), s, i, caps) == if i == 0 then Run(rest, s, i, caps) else None
    ensures Run(Do(End, rest), s, i, caps) == if i == |s| then Run(rest, s, i, caps) else None
    ensures Run(Done, s, i, caps) == Some(Found(i, caps))
  {
  }

  // ---------------------------------------------------------------- the matcher decides the meaning

  ghost predicate Accepts(t: Todo, s: string, i: nat, j: nat) {
    match t
    case Done => i == j <= |s|
    case Do(r, rest) => exists m: nat :: Matches(r, s, i, m) && Accepts(rest, s, m, j)
    case Close(_, _, rest) => Accepts(rest, s, i, j)
  }

  /** A result is a real way to complete the list, and no result means there is none. */
  lemma {:induction false} RunDecides(t: Todo, s: string, i: nat, caps: map<string, string>)
    requires i <= |s|
    ensures var f := Run(t, s, i, caps);
            if f.Some? then Accepts(t, s, i, f.value.end) else forall j :: !Accepts(t, s, i, j)
    decreases Load(t), |s|
  {
    match t
    case Done =>
    case Close(name, from, rest) =>
      RunDecides(rest, s, i, if from <= i then caps[name := s[from..i]] else caps);
    case Do(Lit(w), rest) =>
      if LitAt(w, s, i) {
        assert Matches(Lit(w), s, i, i + |w|);
        RunDecides(rest, s, i + |w|, caps);
      }
    case Do(Chr(k), rest) =>
      if i < |s| && In(s[i], k) {
        assert Matches(Chr(k), s, i, i + 1);
        RunDecides(rest, s, i + 1, caps);
      }
    case Do(Star(k), rest) =>
      BacktrackDecides(k, rest, s, i, Longest(k, s, i), caps);
    case Do(Cat(a, b), rest) =>
      assert Load(Do(b, rest)) == 1 + Weight(b) + Load(rest);
      RunDecides(Do(a, Do(b, rest)), s, i, caps);
      CatAccepts(a, b, rest, s, i);
    case Do(Alt(a, b), rest) =>
      RunDecides(Do(a, rest), s, i, caps);
      RunDecides(Do(b, rest), s, i, caps);
      AltAccepts(a, b, rest, s, i);
    case Do(Group(name, a), rest) =>
      assert Load(Close(name, i, rest)) == 1 + Load(rest);
      RunDecides(Do(a, Close(name, i, rest)), s, i, caps);
      GroupAccepts(name, a, rest, s, i);
    case Do(Begin, rest) =>
      if i == 0 {
        assert Matches(Begin, s, i, i);
        RunDecides(rest, s, i, caps);
      }
    case Do(End, rest) =>
      if i == |s| {
        assert Matches(End, s, i, i);
        RunDecides(rest, s, i, caps);
      }
  }

  lemma {:induction false} BacktrackDecides(k: Class, rest: Todo, s: string, i: nat, e: nat, caps: map<string, string>)
    requires i <= e <= |s| && AllIn(s, i, e, k)
    ensures var f := Backtrack(rest, s, i, e, caps);
            if f.Some? then Accepts(Do(Star(k), rest), s, i, f.value.end)
            else forall m: nat, j: nat :: i <= m <= e ==> !Accepts(rest, s, m, j)
    ensures e == Longest(k, s, i) && Backtrack(rest, s, i, e, caps).None? ==>
              forall j :: !Accepts(Do(Star(k), rest), s, i, j)
    decreases Load(rest), |s| + 1 + e - i
  {
    RunDecides(rest, s, e, caps);
    assert Matches(Star(k), s, i, e);
    if Run(rest, s, e, caps).None? && e != i {
      BacktrackDecides(k, rest, s, i, e - 1, caps);
    }
    if e == Longest(k, s, i) {
      assert forall m: nat :: Matches(Star(k), s, i, m) ==> m <= e;
    }
  }

  lemma CatAccepts(a: Re, b: Re, rest: Todo, s: string, i: nat)
    ensures forall j :: Accepts(Do(a, Do(b, rest)), s, i, j) <==> Accepts(Do(Cat(a, b), rest), s, i, j)
  {
    forall j: nat
      ensures Accepts(Do(a, Do(b, rest)), s, i, j) <==> Accepts(Do(Cat(a, b), rest), s, i, j)
    {
      if Accepts(Do(a, Do(b, rest)), s, i, j) {
        var m: nat :| Matches(a, s, i, m) && Accepts(Do(b, rest), s, m, j);
        var n: nat :| Matches(b, s, m, n) && Accepts(rest, s, n, j);
        CatMatches(a, b, s, i, m, n);
      }
      if Accepts(Do(Cat(a, b), rest), s, i, j) {
        var n: nat :| Matches(Cat(a, b), s, i, n) && Accepts(rest, s, n, j);
        var m := CatSplit(a, b, s, i, n);
        assert Accepts(Do(b, rest), s, m, j);
      }
    }
  }

  lemma AltAccepts(a: Re, b: Re, rest: Todo, s: string, i: nat)
    ensures forall j :: Accepts(Do(Alt(a, b), rest), s, i, j) <==>
                        Accepts(Do(a, rest), s, i, j) || Accepts(Do(b, rest), s, i, j)
  {
  }

  lemma GroupAccepts(name: string, a: Re, rest: Todo, s: string, i: nat)
    ensures forall j :: Accepts(Do(a, Close(name, i, rest)), s, i, j) <==>
                        Accepts(Do(Group(name, a), rest), s, i, j)
  {
    forall j: nat
      ensures Accepts(Do(a, Close(name, i, rest)), s, i, j) <==> Accepts(Do(Group(name, a), rest), s, i, j)
    {
      if Accepts(Do(a, Close(name, i, rest)), s, i, j) {
        var m: nat :| Matches(a, s, i, m) && Accepts(Close(name, i, rest), s, m, j);
        assert Matches(Group(name, a), s, i, m);
      }
      if Accepts(Do(Group(name, a), rest), s, i, j) {
        var m: nat :| Matches(Group(name, a), s, i, m) && Accepts(rest, s, m, j);
        assert Accepts(Close(name, i, rest), s, m, j);
      }
    }
  }

  lemma RunMatches(r: Re, s: string, i: nat)
    requires i <= |s|
    ensures Run(Do(r, Done), s, i, map[]).Some? <==> Starts(r, s, i)
  {
    RunDecides(Do(r, Done), s, i, map[]);
    var f := Run(Do(r, Done), s, i, map[]);
    if f.Some? {
      assert exists m: nat :: Matches(r, s, i, m) && Accepts(Done, s, m, f.value.end);
    } else {
      forall j: nat | Matches(r, s, i, j) ensures false {
        assert Accepts(Done, s, j, j);
        assert Accepts(Do(r, Done), s, i, j);
      }
    }
  }

  lemma {:induction false} FindFromDecides(r: Re, s: string, i: nat)
    requires i <= |s|
    ensures FindFrom(r, s, i).Some? <==> exists x :: i <= x && Starts(r, s, x)
    decreases |s| - i
  {
    RunMatches(r, s, i);
    if Run(Do(r, Done), s, i, map[]).None? && i < |s| {
      FindFromDecides(r, s, i + 1);
    }
  }

  /** `Match` reports a match exactly when the expression matches some span of the text. */
  lemma MatchDecides(r: Re, s: string)
    ensures IsMatch(r, s) <==> exists i :: Starts(r, s, i)
  {
    FindFromDecides(r, s, 0);
  }

  // ---------------------------------------------------------------- anchored expressions

  ghost predicate Anchored(r: Re) {
    match r
    case Begin => true
    case Cat(a, b) => Anchored(a)
    case Alt(a, b) => Anchored(a) && Anchored(b)
    case Group(_, a) => Anchored(a)
    case _ => false
  }

  lemma {:induction false} AnchoredStart(r: Re, s: string, i: nat, j: nat)
    requires Anchored(r) && Matches(r, s, i, j)
    ensures i == 0
  {
    match r
    case Cat(a, b) =>
      var m := CatSplit(a, b, s, i, j);
      AnchoredStart(a, s, i, m);
    case Alt(a, b) =>
      if Matches(a, s, i, j) { AnchoredStart(a, s, i, j); } else { AnchoredStart(b, s, i, j); }
    case Group(_, a) => AnchoredStart(a, s, i, j);
    case _ =>
  }

  /** For an anchored expression the search at position 0 is the whole search. */
  lemma {:induction false} AnchoredFind(r: Re, s: string)
    requires Anchored(r)
    ensures Find(r, s) == Run(Do(r, Done), s, 0, map[])
  {
    if Run(Do(r, Done), s, 0, map[]).None? {
      MatchDecides(r, s);
      RunMatches(r, s, 0);
      if Find(r, s).Some? {
        var i: nat :| Starts(r, s, i);
        var j: nat :| Matches(r, s, i, j);
        AnchoredStart(r, s, i, j);
      }
    }
  }

  lemma AnchoredMatch(r: Re, s: string)
    requires Anchored(r)
    ensures IsMatch(r, s) <==> Starts(r, s, 0)
  {
    MatchDecides(r, s);
    if i: nat :| Starts(r, s, i) {
      var j: nat :| Matches(r, s, i, j);
      AnchoredStart(r, s, i, j);
    }
  }
}
