/** The priority order of leftmost-first matching, declared expression by expression, with what each way
    of matching captures; and the proof that the matcher returns the first way of that order. */
module RegexPriority {
  import opened Prelude
  import opened Regex

  /** One way to match: where it ends and the texts of its groups. */
  type Way = Found

  /** Repetitions that end at `e`, `e - 1`, ..., `i`: the longest first. */
  function StarWays(i: nat, e: nat): seq<Way>
    requires i <= e
    decreases e - i
  {
    [Found(e, map[])] + (if e == i then [] else StarWays(i, e - 1))
  }

  /** Every way to match `r` from `i`, in order of preference: the left alternative before the right one,
      and in a sequence the preference of the first part before that of the second. */
  function Ways(r: Re, s: string, i: nat): (ws: seq<Way>)
    requires i <= |s|
    ensures forall w :: w in ws ==> i <= w.end <= |s|
    decreases r, 1
  {
    match r
    case Lit(w) => if LitAt(w, s, i) then [Found(i + |w|, map[])] else []
    case Chr(k) => if i < |s| && In(s[i], k) then [Found(i + 1, map[])] else []
    case Star(k) => StarWaysEnd(i, Longest(k, s, i)); StarWays(i, Longest(k, s, i))
    case Cat(a, b) => Continued(Ways(a, s, i), b, s, i)
    case Alt(a, b) => Ways(a, s, i) + Ways(b, s, i)
    case Group(name, a) => Closed(Ways(a, s, i), name, s, i)
    case Begin => if i == 0 then [Found(i, map[])] else []
    case End => if i == |s| then [Found(i, map[])] else []
  }

  /** Each way of `ws`, continued by every way of `b` from where it ends. */
  function Continued(ws: seq<Way>, b: Re, s: string, i: nat): (out: seq<Way>)
    requires forall w :: w in ws ==> i <= w.end <= |s|
    ensures forall w :: w in out ==> i <= w.end <= |s|
    decreases b, 2, |ws|
  {
    if ws == [] then []
    else
      assert ws[0] in ws && forall w :: w in ws[1..] ==> w in ws;
      AddedEnds(ws[0].caps, Ways(b, s, ws[0].end));
      Added(ws[0].caps, Ways(b, s, ws[0].end)) + Continued(ws[1..], b, s, i)
  }

  /** The same ways, with captures that were made before them. */
  function Added(caps: map<string, string>, ws: seq<Way>): seq<Way> {
    if ws == [] then [] else [Found(ws[0].end, caps + ws[0].caps)] + Added(caps, ws[1..])
  }

  /** The same ways, each capturing its own span under the group's name. */
  function Closed(ws: seq<Way>, name: string, s: string, i: nat): (out: seq<Way>)
    requires forall w :: w in ws ==> i <= w.end <= |s|
    ensures forall w :: w in out ==> i <= w.end <= |s|
  {
    if ws == [] then []
    else
      assert ws[0] in ws && forall w :: w in ws[1..] ==> w in ws;
      [Found(ws[0].end, ws[0].caps[name := s[i..ws[0].end]])] + Closed(ws[1..], name, s, i)
  }

  lemma {:induction false} StarWaysEnd(i: nat, e: nat)
    requires i <= e
    ensures forall w :: w in StarWays(i, e) ==> i <= w.end <= e && w.caps == map[]
    ensures forall j: nat :: i <= j <= e ==> Found(j, map[]) in StarWays(i, e)
    decreases e - i
  {
    if e > i { StarWaysEnd(i, e - 1); }
  }

  lemma {:induction false} AddedEnds(caps: map<string, string>, ws: seq<Way>)
    ensures forall w :: w in Added(caps, ws) <==> exists v :: v in ws && w == Found(v.end, caps + v.caps)
  {
    if ws != [] {
      AddedEnds(caps, ws[1..]);
      assert ws == [ws[0]] + ws[1..];
    }
  }

  // ---------------------------------------------------------------- the matcher takes the first way

  /** The first of the ways from which the pending work can be completed. */
  function FirstOf(ws: seq<Way>, rest: Todo, s: string, caps: map<string, string>): Option<Found>
    requires forall w :: w in ws ==> w.end <= |s|
    decreases |ws|
  {
    if ws == [] then None
    else
      assert ws[0] in ws && forall w :: w in ws[1..] ==> w in ws;
      var f := Run(rest, s, ws[0].end, caps + ws[0].caps);
      if f.Some? then f else FirstOf(ws[1..], rest, s, caps)
  }

  lemma FirstOfCons(w: Way, ws: seq<Way>, rest: Todo, s: string, caps: map<string, string>)
    requires w.end <= |s| && forall v :: v in ws ==> v.end <= |s|
    ensures var first := Run(rest, s, w.end, caps + w.caps);
            FirstOf([w] + ws, rest, s, caps) == if first.Some? then first else FirstOf(ws, rest, s, caps)
  {
    assert ([w] + ws)[1..] == ws;
  }

  lemma {:induction false} FirstOfConcat(a: seq<Way>, b: seq<Way>, rest: Todo, s: string, caps: map<string, string>)
    requires forall w :: w in a + b ==> w.end <= |s|
    ensures (forall w :: w in a ==> w.end <= |s|) && (forall w :: w in b ==> w.end <= |s|)
    ensures var first := FirstOf(a, rest, s, caps);
            FirstOf(a + b, rest, s, caps) == if first.Some? then first else FirstOf(b, rest, s, caps)
    decreases |a|
  {
    assert forall w :: w in a || w in b ==> w in a + b;
    if a == [] {
      assert a + b == b;
    } else {
      assert (a + b)[1..] == a[1..] + b && (a + b)[0] == a[0];
      assert forall w :: w in a[1..] + b ==> w in a + b;
      FirstOfConcat(a[1..], b, rest, s, caps);
    }
  }

  lemma {:induction false} FirstOfAdded(own: map<string, string>, ws: seq<Way>, rest: Todo, s: string,
                                        caps: map<string, string>)
    requires forall w :: w in ws ==> w.end <= |s|
    requires forall w :: w in Added(own, ws) ==> w.end <= |s|
    ensures FirstOf(Added(own, ws), rest, s, caps) == FirstOf(ws, rest, s, caps + own)
    decreases |ws|
  {
    if ws != [] {
      var w, tail := ws[0], ws[1..];
      var v, vs := Found(w.end, own + w.caps), Added(own, tail);
      assert ws == [w] + tail && Added(own, ws) == [v] + vs;
      assert forall u :: u in tail ==> u in ws;
      assert forall u :: u in vs ==> u in Added(own, ws);
      assert w in ws && caps + v.caps == (caps + own) + w.caps;
      FirstOfAdded(own, tail, rest, s, caps);
      hide Run, FirstOf, Added;
      FirstOfCons(v, vs, rest, s, caps);
      FirstOfCons(w, tail, rest, s, caps + own);
    }
  }

  lemma {:induction false} FirstOfClosed(ws: seq<Way>, name: string, i: nat, rest: Todo, s: string,
                                         caps: map<string, string>)
    requires forall w :: w in ws ==> i <= w.end <= |s|
    ensures FirstOf(ws, Close(name, i, rest), s, caps) == FirstOf(Closed(ws, name, s, i), rest, s, caps)
    decreases |ws|
  {
    if ws != [] {
      assert ws[0] in ws && forall w :: w in ws[1..] ==> w in ws;
      var w := ws[0];
      RunClose(name, i, rest, s, w.end, caps + w.caps);
      assert (caps + w.caps)[name := s[i..w.end]] == caps + w.caps[name := s[i..w.end]];
      FirstOfClosed(ws[1..], name, i, rest, s, caps);
      assert Closed(ws, name, s, i)[1..] == Closed(ws[1..], name, s, i);
    }
  }

  lemma {:induction false} FirstOfStar(i: nat, e: nat, rest: Todo, s: string, caps: map<string, string>)
    requires i <= e <= |s| && forall w :: w in StarWays(i, e) ==> w.end <= |s|
    ensures Backtrack(rest, s, i, e, caps) == FirstOf(StarWays(i, e), rest, s, caps)
    decreases e - i
  {
    var longest := Found(e, map[]);
    assert caps + longest.caps == caps;
    if e == i {
      assert [longest] + [] == StarWays(i, e);
      FirstOfCons(longest, [], rest, s, caps);
    } else {
      var shorter := StarWays(i, e - 1);
      assert [longest] + shorter == StarWays(i, e);
      assert forall w :: w in shorter ==> w in StarWays(i, e);
      FirstOfCons(longest, shorter, rest, s, caps);
      FirstOfStar(i, e - 1, rest, s, caps);
    }
  }

  lemma {:induction false} FirstOfContinued(ws: seq<Way>, b: Re, i: nat, rest: Todo, s: string, caps: map<string, string>)
    requires forall w :: w in ws ==> i <= w.end <= |s|
    ensures FirstOf(ws, Do(b, rest), s, caps) == FirstOf(Continued(ws, b, s, i), rest, s, caps)
    decreases b, 2, |ws|
  {
    if ws != [] {
      assert ws[0] in ws && forall w :: w in ws[1..] ==> w in ws;
      var w := ws[0];
      var next := Ways(b, s, w.end);
      RunIsFirst(b, rest, s, w.end, caps + w.caps);
      AddedEnds(w.caps, next);
      FirstOfAdded(w.caps, next, rest, s, caps);
      FirstOfContinued(ws[1..], b, i, rest, s, caps);
      FirstOfConcat(Added(w.caps, next), Continued(ws[1..], b, s, i), rest, s, caps);
    }
  }

  /** Whatever is pending, the matcher takes the first way of `r` from which the rest can be completed. */
  lemma {:induction false} RunIsFirst(r: Re, rest: Todo, s: string, i: nat, caps: map<string, string>)
    requires i <= |s|
    ensures Run(Do(r, rest), s, i, caps) == FirstOf(Ways(r, s, i), rest, s, caps)
    decreases r, 1
  {
    match r
    case Star(k) =>
      RunStar(k, rest, s, i, caps);
      StarWaysEnd(i, Longest(k, s, i));
      FirstOfStar(i, Longest(k, s, i), rest, s, caps);
    case Cat(a, b) =>
      RunCat(a, b, rest, s, i, caps);
      RunIsFirst(a, Do(b, rest), s, i, caps);
      FirstOfContinued(Ways(a, s, i), b, i, rest, s, caps);
    case Alt(a, b) =>
      RunIsFirst(a, rest, s, i, caps);
      RunIsFirst(b, rest, s, i, caps);
      FirstOfConcat(Ways(a, s, i), Ways(b, s, i), rest, s, caps);
    case Group(name, a) =>
      RunGroup(name, a, rest, s, i, caps);
      RunIsFirst(a, Close(name, i, rest), s, i, caps);
      FirstOfClosed(Ways(a, s, i), name, i, rest, s, caps);
    case _ =>
      FirstOfSimple(r, rest, s, i, caps);
  }

  lemma FirstOfSimple(r: Re, rest: Todo, s: string, i: nat, caps: map<string, string>)
    requires i <= |s| && (r.Lit? || r.Chr? || r.Begin? || r.End?)
    ensures Run(Do(r, rest), s, i, caps) == FirstOf(Ways(r, s, i), rest, s, caps)
  {
    assert caps + map[] == caps;
    var ws := Ways(r, s, i);
    if ws != [] { assert ws[1..] == []; }
  }

  /** Alone, the matcher returns exactly the first way, captures included, or nothing if there is none. */
  lemma RunReturnsFirstWay(r: Re, s: string, i: nat)
    requires i <= |s|
    ensures Run(Do(r, Done), s, i, map[]) == if Ways(r, s, i) == [] then None else Some(Ways(r, s, i)[0])
  {
    RunIsFirst(r, Done, s, i, map[]);
    var ws := Ways(r, s, i);
    if ws != [] {
      assert ws[0] in ws;
      RunAnchor(Done, s, ws[0].end, map[] + ws[0].caps);
      assert map[] + ws[0].caps == ws[0].caps;
    }
  }

  /** `x` is the first position from `i` on that has a way, or the end of the text when none has. */
  ghost predicate Leftmost(r: Re, s: string, i: nat, x: nat) {
    && i <= x <= |s|
    && (forall y :: i <= y < x ==> Ways(r, s, y) == [])
    && (x < |s| ==> Ways(r, s, x) != [])
  }

  /** A search returns the first way at the leftmost position that has one, and nothing otherwise. */
  lemma {:induction false} FindReturnsLeftmostFirst(r: Re, s: string, i: nat) returns (x: nat)
    requires i <= |s|
    ensures Leftmost(r, s, i, x)
    ensures FindFrom(r, s, i) == if Ways(r, s, x) == [] then None else Some(Ways(r, s, x)[0])
    decreases |s| - i
  {
    RunReturnsFirstWay(r, s, i);
    hide Run, Ways;
    if Ways(r, s, i) == [] && i < |s| {
      x := FindReturnsLeftmostFirst(r, s, i + 1);
    } else {
      x := i;
    }
  }

  // ---------------------------------------------------------------- what the ways are and capture

  /** `Group(name, a)` occurs in `r`. */
  predicate HasGroup(r: Re, name: string, a: Re) {
    match r
    case Cat(x, y) => HasGroup(x, name, a) || HasGroup(y, name, a)
    case Alt(x, y) => HasGroup(x, name, a) || HasGroup(y, name, a)
    case Group(n, x) => (n == name && x == a) || HasGroup(x, name, a)
    case _ => false
  }

  /** `text` is a span of `s` within `i..j` that the expression of a group `name` of `r` matches. */
  ghost predicate Captured(r: Re, s: string, i: nat, j: nat, name: string, text: string) {
    exists a, x, y :: HasGroup(r, name, a) && i <= x <= y <= j <= |s| && Matches(a, s, x, y) && text == s[x..y]
  }

  /** The way is a match of `r`, and all its captures are spans that their groups match. */
  ghost predicate Genuine(r: Re, s: string, i: nat, w: Way) {
    Matches(r, s, i, w.end) && forall name :: name in w.caps ==> Captured(r, s, i, w.end, name, w.caps[name])
  }

  lemma CapturedWithin(inner: Re, outer: Re, s: string, i: nat, j: nat, i': nat, j': nat, name: string, text: string)
    requires Captured(inner, s, i, j, name, text) && i' <= i && j <= j' <= |s|
    requires forall a :: HasGroup(inner, name, a) ==> HasGroup(outer, name, a)
    ensures Captured(outer, s, i', j', name, text)
  {
  }

  lemma {:induction false} ContinuedMembers(ws: seq<Way>, b: Re, s: string, i: nat, w: Way)
    requires forall v :: v in ws ==> i <= v.end <= |s|
    ensures w in Continued(ws, b, s, i) <==>
            exists v, u :: v in ws && u in Ways(b, s, v.end) && w == Found(u.end, v.caps + u.caps)
    decreases |ws|
  {
    if ws != [] {
      assert ws[0] in ws && forall v :: v in ws[1..] ==> v in ws;
      assert forall v :: v in ws ==> v == ws[0] || v in ws[1..];
      AddedEnds(ws[0].caps, Ways(b, s, ws[0].end));
      ContinuedMembers(ws[1..], b, s, i, w);
    }
  }

  lemma {:induction false} ClosedMembers(ws: seq<Way>, name: string, s: string, i: nat, w: Way)
    requires forall v :: v in ws ==> i <= v.end <= |s|
    ensures w in Closed(ws, name, s, i) <==> exists v :: v in ws && w == Found(v.end, v.caps[name := s[i..v.end]])
    decreases |ws|
  {
    if ws != [] {
      assert ws[0] in ws && forall v :: v in ws[1..] ==> v in ws;
      assert forall v :: v in ws ==> v == ws[0] || v in ws[1..];
      ClosedMembers(ws[1..], name, s, i, w);
    }
  }

  /** Every way is genuine. */
  lemma {:induction false} WaysAreGenuine(r: Re, s: string, i: nat, w: Way)
    requires i <= |s| && w in Ways(r, s, i)
    ensures Genuine(r, s, i, w)
    decreases r
  {
    match r
    case Star(k) => StarWaysEnd(i, Longest(k, s, i));
    case Cat(a, b) =>
      ContinuedMembers(Ways(a, s, i), b, s, i, w);
      var v, u :| v in Ways(a, s, i) && u in Ways(b, s, v.end) && w == Found(u.end, v.caps + u.caps);
      WaysAreGenuine(a, s, i, v);
      WaysAreGenuine(b, s, v.end, u);
      CatMatches(a, b, s, i, v.end, u.end);
      forall name | name in w.caps ensures Captured(r, s, i, w.end, name, w.caps[name]) {
        if name in u.caps {
          CapturedWithin(b, r, s, v.end, u.end, i, w.end, name, u.caps[name]);
        } else {
          CapturedWithin(a, r, s, i, v.end, i, w.end, name, v.caps[name]);
        }
      }
    case Alt(a, b) =>
      var part := if w in Ways(a, s, i) then a else b;
      WaysAreGenuine(part, s, i, w);
      assert Matches(r, s, i, w.end);
      forall name | name in w.caps ensures Captured(r, s, i, w.end, name, w.caps[name]) {
        CapturedWithin(part, r, s, i, w.end, i, w.end, name, w.caps[name]);
      }
    case Group(n, a) =>
      ClosedMembers(Ways(a, s, i), n, s, i, w);
      var v :| v in Ways(a, s, i) && w == Found(v.end, v.caps[n := s[i..v.end]]);
      WaysAreGenuine(a, s, i, v);
      assert Matches(r, s, i, w.end);
      forall name | name in w.caps ensures Captured(r, s, i, w.end, name, w.caps[name]) {
        if name == n {
          assert HasGroup(r, n, a) && Matches(a, s, i, w.end) && w.caps[name] == s[i..w.end];
        } else {
          CapturedWithin(a, r, s, i, w.end, i, w.end, name, v.caps[name]);
        }
      }
    case _ =>
  }

  /** And every match is one of the ways. */
  lemma {:induction false} WaysAreComplete(r: Re, s: string, i: nat, j: nat)
    requires Matches(r, s, i, j)
    ensures exists w :: w in Ways(r, s, i) && w.end == j
    decreases r
  {
    match r
    case Star(k) =>
      StarWaysEnd(i, Longest(k, s, i));
      assert j <= Longest(k, s, i);
      assert Found(j, map[]) in Ways(r, s, i);
    case Cat(a, b) =>
      var m := CatSplit(a, b, s, i, j);
      WaysAreComplete(a, s, i, m);
      WaysAreComplete(b, s, m, j);
      var v :| v in Ways(a, s, i) && v.end == m;
      var u :| u in Ways(b, s, m) && u.end == j;
      ContinuedMembers(Ways(a, s, i), b, s, i, Found(u.end, v.caps + u.caps));
      assert Found(u.end, v.caps + u.caps) in Ways(r, s, i);
    case Alt(a, b) =>
      var part := if Matches(a, s, i, j) then a else b;
      WaysAreComplete(part, s, i, j);
      var w :| w in Ways(part, s, i) && w.end == j;
      assert w in Ways(r, s, i);
    case Group(n, a) =>
      WaysAreComplete(a, s, i, j);
      var v :| v in Ways(a, s, i) && v.end == j;
      ClosedMembers(Ways(a, s, i), n, s, i, Found(v.end, v.caps[n := s[i..v.end]]));
      assert Found(v.end, v.caps[n := s[i..v.end]]) in Ways(r, s, i);
    case _ =>
      var ws := Ways(r, s, i);
      assert ws[0] in ws && ws[0].end == j;
  }

  /** Every text that a search captures is a span of the subject which its group's expression matches. */
  lemma CapturesAreGenuine(r: Re, s: string)
    requires Find(r, s).Some?
    ensures exists i: nat :: i <= |s| && Genuine(r, s, i, Find(r, s).value)
  {
    var x := FindReturnsLeftmostFirst(r, s, 0);
    assert Find(r, s).value in Ways(r, s, x);
    WaysAreGenuine(r, s, x, Find(r, s).value);
  }
}
