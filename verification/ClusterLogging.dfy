/** pkg/webhooks/clusterlogging/clusterlogging.go: log retention limits. */
module ClusterLogging {
  import opened Prelude
  import opened Text
  import opened Regex
  import opened Admission

  const UNITS: string := "yMwdhHms"

  // ---------------------------------------------------------------- parsing a duration

  /** `^(?P<number>\d+)(?P<unit>[yMwdhHms])$` */
  const TIME_UNIT_RE: Re :=
    Cat(Begin, Cat(Group("number", Cat(Chr(Digit), Star(Digit))), Cat(Group("unit", Chr(OneOf(UNITS))), End)))

  datatype Duration = Duration(number: nat, unit: string)

  function ParseTimeUnit(value: string): Option<Duration> {
    var f := Find(TIME_UNIT_RE, value);
    if f.None? then None
    else
      var number := ParseUint(Capture(f.value, "number"));
      if number.None? then None
      else Some(Duration(number.value, Capture(f.value, "unit")))
  }

  /** Digits followed by one unit letter. */
  predicate Shaped(value: string) {
    |value| >= 2 && AllDigits(value[..|value| - 1]) && value[|value| - 1] in "yMwdhHms"
  }

  /** What follows the digits: a unit letter at the very end. */
  function UnitTail(): Todo { Do(Cat(Group("unit", Chr(OneOf(UNITS))), End), Done) }

  lemma TailRun(s: string, e: nat, caps: map<string, string>)
    requires e <= |s|
    ensures Run(Close("number", 0, UnitTail()), s, e, caps) ==
            if e + 1 == |s| && s[e] in UNITS
            then Some(Found(|s|, caps["number" := s[..e]]["unit" := [s[e]]])) else None
  {
    hide Run;
    var end, unit := Do(End, Done), Chr(OneOf(UNITS));
    var caps1 := caps["number" := s[0..e]];
    RunClose("number", 0, UnitTail(), s, e, caps);
    RunCat(Group("unit", unit), End, Done, s, e, caps1);
    RunGroup("unit", unit, end, s, e, caps1);
    RunChr(OneOf(UNITS), Close("unit", e, end), s, e, caps1);
    if e < |s| && s[e] in UNITS {
      RunClose("unit", e, end, s, e + 1, caps1);
      var caps2 := caps1["unit" := s[e..e + 1]];
      RunAnchor(Done, s, e + 1, caps2);
      assert s[e..e + 1] == [s[e]] && s[0..e] == s[..e];
    }
  }

  lemma {:induction false} DigitsBacktrack(s: string, e: nat, caps: map<string, string>)
    requires 1 <= e < |s| && AllDigits(s[..e + 1])
    ensures Backtrack(Close("number", 0, UnitTail()), s, 1, e, caps) == None
  {
    hide Run;
    assert IsDigit(s[..e + 1][e]);
    TailRun(s, e, caps);
    if e > 1 {
      assert s[..e] == s[..e + 1][..e];
      DigitsBacktrack(s, e - 1, caps);
    }
  }

  /** The expression asks for a digit, then for more digits, then for the tail. */
  lemma ReachDigits(s: string)
    ensures var rest := Close("number", 0, UnitTail());
            Find(TIME_UNIT_RE, s) ==
            if |s| > 0 && IsDigit(s[0]) then Backtrack(rest, s, 1, Longest(Digit, s, 1), map[]) else None
  {
    AnchoredFind(TIME_UNIT_RE, s);
    hide Run;
    var digits := Cat(Chr(Digit), Star(Digit));
    var rest := Close("number", 0, UnitTail());
    RunCat(Begin, TIME_UNIT_RE.b, Done, s, 0, map[]);
    RunAnchor(Do(TIME_UNIT_RE.b, Done), s, 0, map[]);
    RunCat(Group("number", digits), TIME_UNIT_RE.b.b, Done, s, 0, map[]);
    RunGroup("number", digits, UnitTail(), s, 0, map[]);
    RunCat(Chr(Digit), Star(Digit), rest, s, 0, map[]);
    RunChr(Digit, Do(Star(Digit), rest), s, 0, map[]);
    if |s| > 0 { RunStar(Digit, rest, s, 1, map[]); }
  }

  lemma ShapedAt(s: string, m: nat)
    requires 1 <= m <= |s| && AllDigits(s[..m]) && (m < |s| ==> !IsDigit(s[m]))
    ensures Shaped(s) <==> m + 1 == |s| && s[m] in UNITS
  {
  }

  lemma FindTimeUnit(s: string)
    ensures Find(TIME_UNIT_RE, s) ==
            if Shaped(s) then Some(Found(|s|, map["number" := s[..|s| - 1], "unit" := [s[|s| - 1]]])) else None
  {
    ReachDigits(s);
    hide Run, Find;
    if |s| > 0 && IsDigit(s[0]) {
      var m := Longest(Digit, s, 1);
      TailRun(s, m, map[]);
      assert AllDigits(s[..m]);
      if m > 1 { DigitsBacktrack(s, m - 1, map[]); }
      ShapedAt(s, m);
    }
  }

  /** Parsing succeeds exactly on digits followed by one unit whose number fits 64 bits, and then
      returns that number and that unit; leading zeros are accepted. */
  lemma ParseExactly(value: string)
    ensures ParseTimeUnit(value) ==
            if Shaped(value) && Value(value[..|value| - 1]) < TWO64
            then Some(Duration(Value(value[..|value| - 1]), [value[|value| - 1]])) else None
  {
    FindTimeUnit(value);
  }

  function PrintDuration(number: nat, unit: char): string { Print(number) + [unit] }

  /** Printing then parsing is the identity on every 64-bit number and every unit. */
  lemma ParsePrint(number: nat, unit: char)
    requires number < TWO64 && unit in "yMwdhHms"
    ensures ParseTimeUnit(PrintDuration(number, unit)) == Some(Duration(number, [unit]))
  {
    var text := PrintDuration(number, unit);
    assert text[..|text| - 1] == Print(number);
    ValuePrint(number);
    ParseExactly(text);
  }

  // ---------------------------------------------------------------- seconds

  /** Length of a unit in seconds; years and months are the approximations the hook uses. */
  function Factor(unit: string): nat {
    if unit == "y" then 31536000
    else if unit == "M" then 2678400
    else if unit == "w" then 604800
    else if unit == "d" then 86400
    else if unit == "h" || unit == "H" then 3600
    else if unit == "m" then 60
    else 1
  }

  function Wrap(n: nat): (w: nat)
    ensures w < TWO64
  {
    n % TWO64
  }

  /** The 64-bit number of seconds. */
  function Seconds(d: Duration): nat { Wrap(d.number * Factor(d.unit)) }

  lemma {:induction false} WrapAdd(q: nat, r: nat)
    ensures Wrap(TWO64 * q + r) == Wrap(r)
  {
  }

  /** Multiplying a wrapped product wraps to the larger product. */
  lemma WrapMul(n: nat, f: nat, k: nat)
    ensures Wrap(Wrap(n * f) * k) == Wrap(n * (f * k))
  {
    var q, r := (n * f) / TWO64, Wrap(n * f);
    assert n * f == TWO64 * q + r;
    assert n * (f * k) == (n * f) * k == TWO64 * (q * k) + r * k;
    WrapAdd(q * k, r * k);
  }

  /** convertToSeconds: each step multiplies modulo 2^64 and falls through to the next smaller unit. */
  method ConvertToSeconds(number: nat, unit: string) returns (seconds: nat)
    requires number < TWO64
    ensures seconds == Seconds(Duration(number, unit))
  {
    var n, u := number, unit;
    ghost var f: nat := 1;
    assert n == Wrap(number * f);
    hide Wrap;
    if u == "y" {
      WrapMul(number, 1, 365);
      n, u, f := Wrap(n * 365), "d", 365;
    }
    if u == "M" {
      WrapMul(number, 1, 31);
      n, u, f := Wrap(n * 31), "d", 31;
    }
    if u == "w" {
      WrapMul(number, 1, 7);
      n, u, f := Wrap(n * 7), "d", 7;
    }
    if u == "d" {
      WrapMul(number, f, 24);
      n, u, f := Wrap(n * 24), "h", f * 24;
    }
    if u == "h" || u == "H" {
      WrapMul(number, f, 60);
      n, u, f := Wrap(n * 60), "m", f * 60;
    }
    if u == "m" {
      WrapMul(number, f, 60);
      n, f := Wrap(n * 60), f * 60;
    }
    seconds := n;
    assert f == Factor(unit);
  }

  /** Below the bound no multiplication wraps, for any unit. */
  lemma NoWrap(d: Duration)
    requires d.number <= (TWO64 - 1) / 31536000
    ensures Seconds(d) == d.number * Factor(d.unit)
  {
  }

  // ---------------------------------------------------------------- comparison

  function Le(lhs: string, rhs: string): Option<bool> {
    var l := ParseTimeUnit(lhs);
    if l.None? then None
    else
      var r := ParseTimeUnit(rhs);
      if r.None? then None else Some(Seconds(l.value) <= Seconds(r.value))
  }

  /** On durations that parse, the comparison is a total preorder; otherwise it is an error. */
  lemma LePreorder(a: string, b: string, c: string)
    ensures Le(a, b).Some? <==> ParseTimeUnit(a).Some? && ParseTimeUnit(b).Some?
    ensures ParseTimeUnit(a).Some? ==> Le(a, a) == Some(true)
    ensures Le(a, b).Some? ==> Le(a, b) == Some(true) || Le(b, a) == Some(true)
    ensures Le(a, b) == Some(true) && Le(b, c) == Some(true) ==> Le(a, c) == Some(true)
  {
  }

  // ---------------------------------------------------------------- policies

  /** isAllowed and checkPolicy of one validator; an unset policy is refused. */
  function CheckPolicy(lower: string, upper: string, maxAge: Option<string>): Response {
    if maxAge.None? then Denied
    else
      var above, below := Le(lower, maxAge.value), Le(maxAge.value, upper);
      if above.None? || below.None? then Errored(400)
      else if above.value && below.value then Allowed
      else Denied
  }

  /** The retention policies of a ClusterLogging object: the MaxAge of each, if set. */
  datatype Retention = Retention(app: Option<string>, infra: Option<string>, audit: Option<string>)

  function CheckRetention(r: Retention): Response {
    var app := CheckPolicy("1h", "7d", r.app);
    if app != Allowed then app
    else
      var infra := CheckPolicy("1h", "1h", r.infra);
      if infra != Allowed then infra
      else CheckPolicy("1h", "1h", r.audit)
  }

  /** authorized: the old object is rendered when the request has one. */
  function Authorized(req: Request<Retention>): Response {
    var rendered := if req.oldObject != Absent then req.oldObject else req.newObject;
    if !rendered.Decoded? then Errored(400) else CheckRetention(rendered.value)
  }

  lemma Bounds()
    ensures ParseTimeUnit("1h") == Some(Duration(1, "h")) && Seconds(Duration(1, "h")) == 3600
    ensures ParseTimeUnit("7d") == Some(Duration(7, "d")) && Seconds(Duration(7, "d")) == 604800
  {
    hide ParseTimeUnit;
    ParsePrint(1, 'h');
    ParsePrint(7, 'd');
    assert Print(1) == "1" && Print(7) == "7";
    assert PrintDuration(1, 'h') == "1h" && PrintDuration(7, 'd') == "7d";
  }

  /** The verdict on one policy in terms of its parsed 64-bit seconds. */
  function Verdict(low: nat, high: nat, maxAge: Option<string>): Response {
    if maxAge.None? then Denied
    else if ParseTimeUnit(maxAge.value).None? then Errored(400)
    else if low <= Seconds(ParseTimeUnit(maxAge.value).value) <= high then Allowed
    else Denied
  }

  lemma CheckPolicyVerdict(maxAge: Option<string>)
    ensures CheckPolicy("1h", "7d", maxAge) == Verdict(3600, 604800, maxAge)
    ensures CheckPolicy("1h", "1h", maxAge) == Verdict(3600, 3600, maxAge)
  {
    Bounds();
  }

  /** The hook is the conjunction of three range tests, and the first policy that fails its test
      decides the response. */
  lemma RetentionDecision(r: Retention)
    ensures var app, infra := Verdict(3600, 604800, r.app), Verdict(3600, 3600, r.infra);
            var audit := Verdict(3600, 3600, r.audit);
            CheckRetention(r) == if app != Allowed then app else if infra != Allowed then infra else audit
  {
    CheckPolicyVerdict(r.app);
    CheckPolicyVerdict(r.infra);
    CheckPolicyVerdict(r.audit);
  }

  /** The response to every request: the old object is judged when there is one, else the new one, by the
      first of its policies that fails; an object that does not decode is an error. */
  lemma ResponseExactly(req: Request<Retention>)
    ensures req.oldObject.Malformed? || (req.oldObject.Absent? && !req.newObject.Decoded?) ==> Authorized(req) == Errored(400)
    ensures req.oldObject.Decoded? ==> Authorized(req) == FirstFailure(req.oldObject.value)
    ensures req.oldObject.Absent? && req.newObject.Decoded? ==> Authorized(req) == FirstFailure(req.newObject.value)
  {
    if req.oldObject.Decoded? { RetentionDecision(req.oldObject.value); }
    if req.newObject.Decoded? { RetentionDecision(req.newObject.value); }
    hide CheckRetention, Verdict;
  }

  function FirstFailure(r: Retention): Response {
    var app, infra := Verdict(3600, 604800, r.app), Verdict(3600, 3600, r.infra);
    if app != Allowed then app else if infra != Allowed then infra else Verdict(3600, 3600, r.audit)
  }

  // ---------------------------------------------------------------- true durations

  /** The policy is a duration of `low` to `high` true seconds. */
  predicate TrulyWithin(low: nat, high: nat, maxAge: Option<string>) {
    && maxAge.Some? && ParseTimeUnit(maxAge.value).Some?
    && var d := ParseTimeUnit(maxAge.value).value;
       low <= d.number * Factor(d.unit) <= high
  }

  predicate Wraps(maxAge: Option<string>) {
    && maxAge.Some? && ParseTimeUnit(maxAge.value).Some?
    && var d := ParseTimeUnit(maxAge.value).value;
       d.number * Factor(d.unit) >= TWO64
  }

  /** The hook promises a retention of one hour to seven days for application logs and of exactly
      one hour for the other two. */
  predicate Compliant(r: Retention) {
    TrulyWithin(3600, 604800, r.app) && TrulyWithin(3600, 3600, r.infra) && TrulyWithin(3600, 3600, r.audit)
  }

  /** The duration wraps, and what is left of it happens to lie in the range. */
  predicate Misread(low: nat, high: nat, maxAge: Option<string>) {
    && Wraps(maxAge)
    && var d := ParseTimeUnit(maxAge.value).value;
       low <= d.number * Factor(d.unit) % TWO64 <= high
  }

  /** One policy is accepted exactly when it is truly within its range or misread, so verdict and truth
      differ exactly on misread durations. */
  lemma VerdictExactly(low: nat, high: nat, maxAge: Option<string>)
    requires high < TWO64
    ensures Verdict(low, high, maxAge) == Allowed <==> TrulyWithin(low, high, maxAge) || Misread(low, high, maxAge)
    ensures (Verdict(low, high, maxAge) == Allowed) != TrulyWithin(low, high, maxAge) <==> Misread(low, high, maxAge)
  {
    if maxAge.Some? && ParseTimeUnit(maxAge.value).Some? {
      var d := ParseTimeUnit(maxAge.value).value;
      var n := d.number * Factor(d.unit);
      assert n < TWO64 ==> n % TWO64 == n;
    }
  }

  /** What the hook accepts, in terms of parsed durations alone. */
  predicate Accepted(r: Retention) {
    && (TrulyWithin(3600, 604800, r.app) || Misread(3600, 604800, r.app))
    && (TrulyWithin(3600, 3600, r.infra) || Misread(3600, 3600, r.infra))
    && (TrulyWithin(3600, 3600, r.audit) || Misread(3600, 3600, r.audit))
  }

  lemma AcceptedExactly(r: Retention)
    ensures CheckRetention(r) == Allowed <==> Accepted(r)
  {
    RetentionDecision(r);
    hide CheckRetention, Verdict, TrulyWithin, Misread;
    VerdictExactly(3600, 604800, r.app);
    VerdictExactly(3600, 3600, r.infra);
    VerdictExactly(3600, 3600, r.audit);
  }

  /** When no duration wraps, the object is allowed exactly when it is compliant; a compliant object
      is always allowed. */
  lemma AllowedExactlyWhenCompliant(r: Retention)
    ensures Compliant(r) ==> CheckRetention(r) == Allowed
    ensures !Wraps(r.app) && !Wraps(r.infra) && !Wraps(r.audit) ==>
              (CheckRetention(r) == Allowed <==> Compliant(r))
  {
    hide CheckRetention;
    AcceptedExactly(r);
  }

  /** The decision differs from the promise exactly when every duration is truly within its range or
      misread, and at least one of them is misread. */
  lemma WrongExactlyOnWrap(r: Retention)
    ensures (CheckRetention(r) == Allowed) != Compliant(r) <==>
            && Accepted(r)
            && (Misread(3600, 604800, r.app) || Misread(3600, 3600, r.infra) || Misread(3600, 3600, r.audit))
  {
    AcceptedExactly(r);
    hide CheckRetention;
  }

  /** 2^62 + 60 minutes wrap to one hour and are accepted for all three logs. */
  lemma WrapExample()
    ensures var age := Some(PrintDuration(4611686018427387964, 'm'));
            CheckRetention(Retention(age, age, age)) == Allowed && !Compliant(Retention(age, age, age))
  {
    hide CheckRetention, ParseTimeUnit, PrintDuration;
    var n := 4611686018427387964;
    var age := Some(PrintDuration(n, 'm'));
    ParsePrint(n, 'm');
    assert n * 60 == 15 * TWO64 + 3600;
    AcceptedExactly(Retention(age, age, age));
  }

  // ---------------------------------------------------------------- runs

  /** The requests of one object's life: it is created, then updated any number of times, and each update
      carries the stored object as its old object. `objects[i]` is stored before update `i`. */
  predicate Life(objects: seq<Retention>, create: Request<Retention>, updates: seq<Request<Retention>>) {
    && |objects| == |updates| + 1
    && create.oldObject == Absent && create.newObject == Decoded(objects[0])
    && forall i :: 0 <= i < |updates| ==>
         updates[i].oldObject == Decoded(objects[i]) && updates[i].newObject == Decoded(objects[i + 1])
  }

  predicate AllAdmitted(create: Request<Retention>, updates: seq<Request<Retention>>) {
    Authorized(create) == Allowed && forall i :: 0 <= i < |updates| ==> Authorized(updates[i]) == Allowed
  }

  /** An update is judged by the object it replaces. So a whole life is admitted exactly when its first
      object and every later one but the last are accepted durations; the last object is free. */
  lemma LifeAdmittedExactly(objects: seq<Retention>, create: Request<Retention>, updates: seq<Request<Retention>>)
    requires Life(objects, create, updates)
    ensures AllAdmitted(create, updates) <==>
            Accepted(objects[0]) && forall i :: 0 <= i < |updates| ==> Accepted(objects[i])
  {
    AcceptedExactly(objects[0]);
    forall i | 0 <= i < |updates| ensures Authorized(updates[i]) == Allowed <==> Accepted(objects[i]) {
      AcceptedExactly(objects[i]);
    }
  }

  /** In an admitted life without wrapping durations, every object that was ever updated complied. */
  lemma UpdatedObjectsComply(objects: seq<Retention>, create: Request<Retention>, updates: seq<Request<Retention>>, i: nat)
    requires Life(objects, create, updates) && i < |updates|
    ensures AllAdmitted(create, updates) && !Wraps(objects[i].app) && !Wraps(objects[i].infra) && !Wraps(objects[i].audit)
            ==> Compliant(objects[i])
  {
    hide AllAdmitted;
    LifeAdmittedExactly(objects, create, updates);
  }

  /** A compliant object can be replaced by one without any retention policy, and from then on every
      update is refused, whatever it carries. */
  lemma UncheckedObjectExample(req: Request<Retention>, next: Raw<Retention>)
    ensures var hour := Some("1h");
            var good, bad := Retention(hour, hour, hour), Retention(None, None, None);
            && Compliant(good) && !Compliant(bad)
            && Authorized(req.(oldObject := Decoded(good), newObject := Decoded(bad))) == Allowed
            && Authorized(req.(oldObject := Decoded(bad), newObject := next)) != Allowed
  {
    Bounds();
    hide CheckRetention, ParseTimeUnit;
    var hour := Some("1h");
    AcceptedExactly(Retention(hour, hour, hour));
    AcceptedExactly(Retention(None, None, None));
  }
}
