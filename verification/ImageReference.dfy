/** The internal-registry image expression of pkg/webhooks/podimagespec/podimagespec.go and what it reads. */
module ImageReference {
  import opened Prelude
  import opened Regex

  const REGISTRY: string := "image-registry.openshift-image-registry.svc:5000/"

  const TAG_RE: Re := Group("tag", Star(NonSpace))
  const IMAGE_TAG_RE: Re := Cat(Group("image", Star(Word)), Cat(Lit(":"), TAG_RE))
  const SEPARATOR_RE: Re := Cat(Lit("/"), IMAGE_TAG_RE)

  /** `^(image-registry\.openshift-image-registry\.svc:5000\/)(?P<namespace>\S*)(/)(?P<image>\w*)(:)(?P<tag>\S*)` */
  const IMAGE_RE: Re := Cat(Begin, Cat(Lit(REGISTRY), Cat(Group("namespace", Star(NonSpace)), SEPARATOR_RE)))

  datatype ImageRef = ImageRef(ns: string, image: string, tag: string)

  /** checkContainerImageSpecByRegex */
  function CheckImage(spec: string): Option<ImageRef> {
    var f := Find(IMAGE_RE, spec);
    if f.None? then None
    else Some(ImageRef(Capture(f.value, "namespace"), Capture(f.value, "image"), Capture(f.value, "tag")))
  }

  // ---------------------------------------------------------------- what a reading is

  predicate Blank(c: char) { c in ['\t', '\n', '\U{000C}', '\r', ' '] }

  predicate NoSpace(s: string) { forall i :: 0 <= i < |s| ==> !Blank(s[i]) }

  /** ASCII letters, digits and underscore only. */
  predicate AllWord(s: string) {
    forall i :: 0 <= i < |s| ==> 'a' <= s[i] <= 'z' || 'A' <= s[i] <= 'Z' || '0' <= s[i] <= '9' || s[i] == '_'
  }

  /** The reference written out after the given registry prefix. */
  function Text(reg: string, r: ImageRef): string {
    reg + r.ns + "/" + r.image + ":" + r.tag
  }

  function PrintRef(r: ImageRef): string { Text("image-registry.openshift-image-registry.svc:5000/", r) }

  predicate WellFormed(r: ImageRef) { NoSpace(r.ns) && AllWord(r.image) && NoSpace(r.tag) }

  /** `spec` starts with the reference, and what follows the tag, if anything, is white space. */
  predicate Reads(spec: string, r: ImageRef) {
    && WellFormed(r)
    && PrintRef(r) <= spec
    && (|PrintRef(r)| < |spec| ==> Blank(spec[|PrintRef(r)|]))
  }

  // ---------------------------------------------------------------- positions

  /** A "/", then word characters, then ":" start at `e`. */
  predicate SeparatorAt(s: string, e: nat) {
    && e < |s| && s[e] == '/'
    && var m := Longest(Word, s, e + 1);
       m < |s| && s[m] == ':'
  }

  /** The reference whose namespace lies between `from` and the separator at `e`. */
  function RefAt(s: string, from: nat, e: nat): ImageRef
    requires from <= e && SeparatorAt(s, e)
  {
    var m := Longest(Word, s, e + 1);
    ImageRef(s[from..e], s[e + 1..m], s[m + 1..Longest(NonSpace, s, m + 1)])
  }

  function CapsAt(s: string, from: nat, e: nat): map<string, string>
    requires from <= e && SeparatorAt(s, e)
  {
    var r := RefAt(s, from, e);
    map["namespace" := r.ns, "image" := r.image, "tag" := r.tag]
  }

  /** The last separator that starts in `from..upTo`. */
  function LastSeparator(s: string, from: nat, upTo: nat): (e: Option<nat>)
    requires from <= upTo <= |s|
    ensures e.Some? ==> from <= e.value <= upTo && SeparatorAt(s, e.value)
                        && forall x :: e.value < x <= upTo ==> !SeparatorAt(s, x)
    ensures e.None? ==> forall x :: from <= x <= upTo ==> !SeparatorAt(s, x)
    decreases upTo
  {
    if SeparatorAt(s, upTo) then Some(upTo)
    else if upTo == from then None
    else LastSeparator(s, from, upTo - 1)
  }

  // ---------------------------------------------------------------- running the expression

  lemma TagRun(s: string, i: nat, caps: map<string, string>)
    requires i <= |s|
    ensures var e := Longest(NonSpace, s, i);
            Run(Do(TAG_RE, Done), s, i, caps) == Some(Found(e, caps["tag" := s[i..e]]))
  {
    hide Run;
    var e, rest := Longest(NonSpace, s, i), Close("tag", i, Done);
    RunGroup("tag", Star(NonSpace), Done, s, i, caps);
    RunStar(NonSpace, rest, s, i, caps);
    RunClose("tag", i, Done, s, e, caps);
    RunAnchor(Done, s, e, caps["tag" := s[i..e]]);
  }

  /** After the image name there must be a colon. */
  lemma ColonRun(s: string, i: nat, e: nat, caps: map<string, string>)
    requires i <= e <= |s|
    ensures var rest := Close("image", i, Do(Cat(Lit(":"), TAG_RE), Done));
            Run(rest, s, e, caps) ==
            if e < |s| && s[e] == ':' then
              var t := Longest(NonSpace, s, e + 1);
              Some(Found(t, caps["image" := s[i..e]]["tag" := s[e + 1..t]]))
            else None
  {
    hide Run;
    var caps1 := caps["image" := s[i..e]];
    RunClose("image", i, Do(Cat(Lit(":"), TAG_RE), Done), s, e, caps);
    RunCat(Lit(":"), TAG_RE, Done, s, e, caps1);
    RunLit(":", Do(TAG_RE, Done), s, e, caps1);
    if e < |s| {
      assert s[e..e + 1] == [s[e]];
      TagRun(s, e + 1, caps1);
    }
  }

  lemma {:induction false} ShorterImageFails(s: string, i: nat, e: nat, caps: map<string, string>)
    requires i <= e < |s| && AllIn(s, i, e + 1, Word)
    ensures Backtrack(Close("image", i, Do(Cat(Lit(":"), TAG_RE), Done)), s, i, e, caps) == None
    decreases e
  {
    hide Run;
    ColonRun(s, i, e, caps);
    if e > i { ShorterImageFails(s, i, e - 1, caps); }
  }

  lemma ImageRun(s: string, i: nat, caps: map<string, string>)
    requires i <= |s|
    ensures var m := Longest(Word, s, i);
            Run(Do(IMAGE_TAG_RE, Done), s, i, caps) ==
            if m < |s| && s[m] == ':' then
              var t := Longest(NonSpace, s, m + 1);
              Some(Found(t, caps["image" := s[i..m]]["tag" := s[m + 1..t]]))
            else None
  {
    hide Run;
    var m, after := Longest(Word, s, i), Do(Cat(Lit(":"), TAG_RE), Done);
    RunCat(Group("image", Star(Word)), Cat(Lit(":"), TAG_RE), Done, s, i, caps);
    RunGroup("image", Star(Word), after, s, i, caps);
    RunStar(Word, Close("image", i, after), s, i, caps);
    ColonRun(s, i, m, caps);
    if m > i { ShorterImageFails(s, i, m - 1, caps); }
  }

  lemma SeparatorRun(s: string, from: nat, e: nat)
    requires from <= e <= |s|
    ensures var f := Run(Close("namespace", from, Do(SEPARATOR_RE, Done)), s, e, map[]);
            if SeparatorAt(s, e) then f.Some? && f.value.caps == CapsAt(s, from, e) else f.None?
  {
    hide Run;
    var caps := map["namespace" := s[from..e]];
    assert caps == (map[])["namespace" := s[from..e]];
    RunClose("namespace", from, Do(SEPARATOR_RE, Done), s, e, map[]);
    RunCat(Lit("/"), IMAGE_TAG_RE, Done, s, e, caps);
    RunLit("/", Do(IMAGE_TAG_RE, Done), s, e, caps);
    if e < |s| {
      assert s[e..e + 1] == [s[e]];
      ImageRun(s, e + 1, caps);
    }
  }

  lemma {:induction false} NamespaceBacktrack(s: string, from: nat, upTo: nat)
    requires from <= upTo <= |s|
    ensures var f := Backtrack(Close("namespace", from, Do(SEPARATOR_RE, Done)), s, from, upTo, map[]);
            var e := LastSeparator(s, from, upTo);
            if e.Some? then f.Some? && f.value.caps == CapsAt(s, from, e.value) else f.None?
    decreases upTo
  {
    hide Run;
    SeparatorRun(s, from, upTo);
    if !SeparatorAt(s, upTo) && from < upTo { NamespaceBacktrack(s, from, upTo - 1); }
  }

  /** The greedy matcher settles on the last separator of the leading non-space run. */
  lemma CheckImageByPosition(s: string)
    ensures CheckImage(s) ==
            if !LitAt(REGISTRY, s, 0) then None
            else
              var p := |REGISTRY|;
              var e := LastSeparator(s, p, Longest(NonSpace, s, p));
              if e.None? then None else Some(RefAt(s, p, e.value))
  {
    AnchoredFind(IMAGE_RE, s);
    hide Run, Find;
    RunCat(Begin, IMAGE_RE.b, Done, s, 0, map[]);
    RunAnchor(Do(IMAGE_RE.b, Done), s, 0, map[]);
    RunCat(Lit(REGISTRY), IMAGE_RE.b.b, Done, s, 0, map[]);
    RunLit(REGISTRY, Do(IMAGE_RE.b.b, Done), s, 0, map[]);
    if LitAt(REGISTRY, s, 0) {
      var p := |REGISTRY|;
      var rest := Do(SEPARATOR_RE, Done);
      RunCat(Group("namespace", Star(NonSpace)), SEPARATOR_RE, Done, s, p, map[]);
      RunGroup("namespace", Star(NonSpace), rest, s, p, map[]);
      RunStar(NonSpace, Close("namespace", p, rest), s, p, map[]);
      NamespaceBacktrack(s, p, Longest(NonSpace, s, p));
    }
  }

  // ---------------------------------------------------------------- readings and positions

  /** Where the pieces of a reference lie in a text that starts with it: the namespace in `p..e`,
      the image in `e + 1..m` and the tag in `m + 1..t`. */
  predicate PiecesAt(reg: string, r: ImageRef, s: string, p: nat, e: nat, m: nat, t: nat) {
    && p == |reg| && e == p + |r.ns| && m == e + 1 + |r.image| && t == m + 1 + |r.tag| <= |s|
    && s[..p] == reg && s[p..e] == r.ns && s[e] == '/'
    && s[e + 1..m] == r.image && s[m] == ':' && s[m + 1..t] == r.tag
  }

  lemma Pieces(reg: string, r: ImageRef, s: string) returns (p: nat, e: nat, m: nat, t: nat)
    requires Text(reg, r) <= s
    ensures PiecesAt(reg, r, s, p, e, m, t) && |Text(reg, r)| == t && p == |reg| && e == p + |r.ns|
  {
    var text := Text(reg, r);
    p := |reg|;
    e := p + |r.ns|;
    m := e + 1 + |r.image|;
    t := |text|;
    assert s[..|text|] == text;
    assert text[..p] == reg && text[p..e] == r.ns && text[e] == '/';
    assert text[e + 1..m] == r.image && text[m] == ':' && text[m + 1..] == r.tag;
  }

  lemma WordAllIn(w: string, s: string, i: nat, j: nat, k: Class)
    requires i <= j <= |s| && s[i..j] == w && AllIn(w, 0, |w|, k)
    ensures AllIn(s, i, j, k)
  {
  }

  /** Boundaries that delimit a namespace, an image and a tag are the ones the matcher looks for. */
  lemma Boundaries(s: string, p: nat, e: nat, m: nat, t: nat)
    requires p <= e < m < t <= |s| && s[e] == '/' && s[m] == ':' && (t < |s| ==> IsSpace(s[t]))
    requires AllIn(s, p, e, NonSpace) && AllIn(s, e + 1, m, Word) && AllIn(s, m + 1, t, NonSpace)
    ensures e <= Longest(NonSpace, s, p) && SeparatorAt(s, e)
    ensures RefAt(s, p, e) == ImageRef(s[p..e], s[e + 1..m], s[m + 1..t])
  {
  }

  lemma ReadingHasPosition(s: string, r: ImageRef) returns (e: nat)
    requires Reads(s, r)
    ensures e == |REGISTRY| + |r.ns| && LitAt(REGISTRY, s, 0)
    ensures e <= Longest(NonSpace, s, |REGISTRY|) && SeparatorAt(s, e) && RefAt(s, |REGISTRY|, e) == r
  {
    var p, e', m, t := Pieces(REGISTRY, r, s);
    PiecesAreRead(REGISTRY, s, r, p, e', m, t);
    e := e';
  }

  lemma PiecesAreRead(reg: string, s: string, r: ImageRef, p: nat, e: nat, m: nat, t: nat)
    requires WellFormed(r) && PiecesAt(reg, r, s, p, e, m, t) && (t < |s| ==> IsSpace(s[t]))
    ensures LitAt(reg, s, 0) && e <= Longest(NonSpace, s, p) && SeparatorAt(s, e) && RefAt(s, p, e) == r
  {
    PieceClasses(reg, s, r, p, e, m, t);
    Boundaries(s, p, e, m, t);
    assert s[0..p] == s[..p];
  }

  lemma PieceClasses(reg: string, s: string, r: ImageRef, p: nat, e: nat, m: nat, t: nat)
    requires WellFormed(r) && PiecesAt(reg, r, s, p, e, m, t)
    ensures AllIn(s, p, e, NonSpace) && AllIn(s, e + 1, m, Word) && AllIn(s, m + 1, t, NonSpace)
  {
    WordAllIn(r.ns, s, p, e, NonSpace);
    WordAllIn(r.image, s, e + 1, m, Word);
    WordAllIn(r.tag, s, m + 1, t, NonSpace);
  }

  lemma PositionIsReading(s: string, e: nat)
    requires LitAt(REGISTRY, s, 0) && |REGISTRY| <= e <= Longest(NonSpace, s, |REGISTRY|) && SeparatorAt(s, e)
    ensures Reads(s, RefAt(s, |REGISTRY|, e))
  {
    PositionReads(REGISTRY, s, e);
  }

  lemma PositionReads(reg: string, s: string, e: nat)
    requires LitAt(reg, s, 0) && |reg| <= e <= Longest(NonSpace, s, |reg|) && SeparatorAt(s, e)
    ensures var r := RefAt(s, |reg|, e);
            var text := Text(reg, r);
            WellFormed(r) && text <= s && (|text| < |s| ==> IsSpace(s[|text|]))
  {
    hide Text;
    var m := Longest(Word, s, e + 1);
    Assemble(reg, s, e, m, Longest(NonSpace, s, m + 1));
  }

  lemma Assemble(reg: string, s: string, e: nat, m: nat, t: nat)
    requires |reg| <= e < m < t <= |s|
    requires LitAt(reg, s, 0) && s[e] == '/' && s[m] == ':'
    ensures Text(reg, ImageRef(s[|reg|..e], s[e + 1..m], s[m + 1..t])) == s[..t]
  {
  }

  /** The parser is exact. It yields a reference exactly when the text reads as that reference and
      no other reading has a longer namespace; it yields nothing exactly when there is no reading. */
  lemma CheckImageExactly(s: string, r: ImageRef)
    ensures CheckImage(s) == Some(r) <==>
            Reads(s, r) && forall other :: Reads(s, other) ==> |other.ns| <= |r.ns|
    ensures CheckImage(s) == None <==> forall other :: !Reads(s, other)
  {
    CheckImageByPosition(s);
    hide CheckImage, Reads;
    forall other | Reads(s, other)
      ensures CheckImage(s).Some? && |other.ns| <= |CheckImage(s).value.ns|
      ensures |other.ns| == |CheckImage(s).value.ns| ==> CheckImage(s).value == other
    {
      var e := ReadingHasPosition(s, other);
    }
    if CheckImage(s).Some? {
      var e := LastSeparator(s, |REGISTRY|, Longest(NonSpace, s, |REGISTRY|)).value;
      PositionIsReading(s, e);
    }
  }

  // ---------------------------------------------------------------- printing and parsing

  lemma {:induction false} LongestShift(k: Class, a: string, b: string, i: nat)
    requires i <= |b|
    ensures Longest(k, a + b, |a| + i) == |a| + Longest(k, b, i)
    decreases |b| - i
  {
    if i < |b| && In(b[i], k) { LongestShift(k, a, b, i + 1); }
  }

  lemma SeparatorShift(a: string, b: string, e: nat)
    ensures SeparatorAt(a + b, |a| + e) <==> SeparatorAt(b, e)
  {
    if e < |b| { LongestShift(Word, a, b, e + 1); }
  }

  /** A printed well-formed reference has no white space after the registry, and its only
      separators past the namespace lie in the tag. */
  lemma PrintedShape(reg: string, r: ImageRef, s: string, p: nat, e: nat, m: nat)
    requires WellFormed(r) && PiecesAt(reg, r, s, p, e, m, |s|)
    ensures Longest(NonSpace, s, p) == |s|
    ensures forall x :: e < x <= m ==> s[x] != '/'
  {
  }

  lemma PrintedLast(reg: string, r: ImageRef, s: string, p: nat, e: nat, m: nat)
    requires WellFormed(r) && PiecesAt(reg, r, s, p, e, m, |s|)
    ensures var last := LastSeparator(s, p, Longest(NonSpace, s, p));
            last.Some? && (last.value == e <==> forall x: nat :: !SeparatorAt(r.tag, x))
  {
    PrintedShape(reg, r, s, p, e, m);
    PiecesAreRead(reg, s, r, p, e, m, |s|);
    hide AllIn, In, Longest, SeparatorAt;
    var head := s[..m + 1];
    assert s == head + r.tag;
    LastInTag(head, p, e, r.tag);
  }

  /** Printing a well-formed reference and parsing it gives it back exactly when its tag does not
      itself hold a "/", word characters and ":". */
  lemma RoundTripExactly(r: ImageRef)
    requires WellFormed(r)
    ensures CheckImage(PrintRef(r)) == Some(r) <==> forall e: nat :: !SeparatorAt(r.tag, e)
  {
    var s := PrintRef(r);
    var p, e, m, t := Pieces(REGISTRY, r, s);
    PrintedLast(REGISTRY, r, s, p, e, m);
    PiecesAreRead(REGISTRY, s, r, p, e, m, t);
    CheckImageByPosition(s);
    hide CheckImage, Text, Longest, SeparatorAt, AllIn, In;
    RefAtNamespace(s, p, LastSeparator(s, p, Longest(NonSpace, s, p)).value);
  }

  /** Different separators give different namespaces. */
  lemma RefAtNamespace(s: string, from: nat, e: nat)
    requires from <= e && SeparatorAt(s, e)
    ensures |RefAt(s, from, e).ns| == e - from
  {
  }

  lemma LastInTag(head: string, from: nat, e0: nat, tag: string)
    requires from <= e0 < |head| && SeparatorAt(head + tag, e0)
    requires forall x :: e0 < x < |head| ==> head[x] != '/'
    ensures LastSeparator(head + tag, from, |head + tag|).Some?
    ensures LastSeparator(head + tag, from, |head + tag|).value == e0 <==> forall e: nat :: !SeparatorAt(tag, e)
  {
    var s := head + tag;
    var last := LastSeparator(s, from, |s|).value;
    forall e: nat ensures SeparatorAt(tag, e) <==> SeparatorAt(s, |head| + e) { SeparatorShift(head, tag, e); }
    if last > e0 {
      assert last >= |head|;
      assert SeparatorAt(tag, last - |head|);
    } else {
      forall e: nat ensures !SeparatorAt(tag, e) {
        assert e < |tag| ==> !SeparatorAt(s, |head| + e);
      }
    }
  }
}
