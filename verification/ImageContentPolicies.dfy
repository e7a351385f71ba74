/** pkg/webhooks/imagecontentpolicies/imagecontentpolicies.go: mirror sources that may not be redirected. */
module ImageContentPolicies {
  import opened Prelude
  import opened Text
  import opened Regex
  import opened Patterns
  import opened Admission

  const REDHAT_IO: string := "registry.redhat.io"
  const QUAY_IO: string := "quay.io"
  const ACCESS_REDHAT: string := "registry.access.redhat.com"

  /** `(/.*)?` */
  function PathOpt(name: string): Re { Opt(Group(name, Cat(Lit("/"), Star(Dot)))) }

  /** `(^registry\.redhat\.io$|^quay\.io(/.*)?$|^registry\.access\.redhat\.com(/.*)?)` */
  const UNAUTHORIZED_MIRRORS_RE: Re :=
    Group("1",
      Alt(Exactly(REDHAT_IO),
      Alt(Cat(Begin, Cat(Lit(QUAY_IO), Cat(PathOpt("2"), End))),
          Cat(Begin, Cat(Lit(ACCESS_REDHAT), PathOpt("3"))))))

  /** What the expression rejects, as plain string tests. */
  predicate Unauthorized(source: string) {
    || source == "registry.redhat.io"
    || source == "quay.io"
    || (HasPrefix(source, "quay.io/") && '\n' !in source)
    || HasPrefix(source, "registry.access.redhat.com")
  }

  /** What the comment above the expression announces: one host exactly, the other two with their paths. */
  predicate AnnouncedAsUnauthorized(source: string) {
    || source == "registry.redhat.io"
    || source == "quay.io" || HasPrefix(source, "quay.io/")
    || source == "registry.access.redhat.com" || HasPrefix(source, "registry.access.redhat.com/")
  }

  lemma PathOptEnd(s: string, i: nat)
    requires i <= |s|
    ensures Starts(Cat(PathOpt("2"), End), s, i) <==> i == |s| || (s[i] == '/' && AllIn(s, i + 1, |s|, Dot))
  {
    StartsOptCat(Group("2", Cat(Lit("/"), Star(Dot))), End, s, i);
    StartsEnd(s, i);
    StartsAssoc("2", Lit("/"), Star(Dot), End, s, i);
    StartsLitCat("/", Cat(Star(Dot), End), s, i);
    if i < |s| {
      StartsStarEnd(Dot, s, i + 1);
      assert s[i..i + 1] == [s[i]];
    }
  }

  lemma QuayBranch(s: string)
    ensures Starts(Cat(Begin, Cat(Lit(QUAY_IO), Cat(PathOpt("2"), End))), s, 0) <==>
            s == QUAY_IO || (HasPrefix(s, QUAY_IO + "/") && '\n' !in s)
  {
    assert QUAY_IO + "/" == "quay.io/";
    StartsBeginCat(Cat(Lit(QUAY_IO), Cat(PathOpt("2"), End)), s);
    StartsLitCat(QUAY_IO, Cat(PathOpt("2"), End), s, 0);
    if LitAt(QUAY_IO, s, 0) {
      PathOptEnd(s, 7);
      assert s[..7] == QUAY_IO && '\n' !in QUAY_IO;
      if |s| > 7 {
        assert s[..8] == QUAY_IO + [s[7]];
        assert s[7] == '/' ==> ('\n' !in s <==> AllIn(s, 8, |s|, Dot)) by {
          assert forall x :: 0 <= x < 7 ==> s[x] == QUAY_IO[x];
        }
      }
    } else if HasPrefix(s, QUAY_IO + "/") {
      PrefixOfPrefix(s, QUAY_IO + "/", QUAY_IO);
    }
  }

  /** The expression rejects exactly the sources that the string tests describe. */
  lemma UnauthorizedMeaning(source: string)
    ensures IsMatch(UNAUTHORIZED_MIRRORS_RE, source) <==> Unauthorized(source)
  {
    var a := UNAUTHORIZED_MIRRORS_RE.a;
    assert QUAY_IO + "/" == "quay.io/";
    AnchoredMatch(UNAUTHORIZED_MIRRORS_RE, source);
    StartsGroup("1", a, source, 0);
    StartsAlt(a.a, a.b, source, 0);
    StartsAlt(a.b.a, a.b.b, source, 0);
    ExactlyStarts(REDHAT_IO, source);
    QuayBranch(source);
    StartsBeginCat(a.b.b.b, source);
    StartsLitCat(ACCESS_REDHAT, PathOpt("3"), source, 0);
    LitAtSuffix(ACCESS_REDHAT, source, 0);
    assert source[0..] == source;
    if LitAt(ACCESS_REDHAT, source, 0) {
      StartsOpt(Group("3", Cat(Lit("/"), Star(Dot))), source, |ACCESS_REDHAT|);
    }
  }

  /** Code and comment disagree exactly on hosts that merely begin with the third name, since that
      branch has no end anchor, and on quay.io paths that hold a newline. */
  lemma CommentDisagreement(source: string)
    ensures (Unauthorized(source) != AnnouncedAsUnauthorized(source)) <==>
            || (HasPrefix(source, ACCESS_REDHAT) && |source| > |ACCESS_REDHAT| && source[|ACCESS_REDHAT|] != '/')
            || (HasPrefix(source, QUAY_IO + "/") && '\n' in source)
  {
    assert QUAY_IO + "/" == "quay.io/" && ACCESS_REDHAT + "/" == "registry.access.redhat.com/";
    var n := |ACCESS_REDHAT|;
    if HasPrefix(source, ACCESS_REDHAT) {
      assert source[0] == 'r';
      assert !HasPrefix(source, QUAY_IO + "/");
      assert source != QUAY_IO && source != REDHAT_IO by { assert source[..n][9] == 'a'; }
      if |source| > n { assert source[..n + 1] == ACCESS_REDHAT + [source[n]]; }
    } else {
      if HasPrefix(source, ACCESS_REDHAT + "/") { PrefixOfPrefix(source, ACCESS_REDHAT + "/", ACCESS_REDHAT); }
      if HasPrefix(source, QUAY_IO + "/") { assert source[..8][0] == 'q'; }
    }
  }

  /** A host outside the announced family that the code refuses. */
  lemma CommentDisagreementExample()
    ensures Unauthorized("registry.access.redhat.community/app")
    ensures !AnnouncedAsUnauthorized("registry.access.redhat.community/app")
  {
    var s := "registry.access.redhat.community/app";
    assert s[..|ACCESS_REDHAT|] == ACCESS_REDHAT;
    assert HasPrefix(s, ACCESS_REDHAT) && s[|ACCESS_REDHAT|] == 'm';
    CommentDisagreement(s);
  }

  /** The scan shared by the three mirror-set kinds: stop at the first unauthorized source. */
  predicate AuthorizeSources(sources: seq<string>) {
    sources == [] || (!IsMatch(UNAUTHORIZED_MIRRORS_RE, sources[0]) && AuthorizeSources(sources[1..]))
  }

  lemma {:induction false} AuthorizeSourcesMeaning(sources: seq<string>)
    ensures AuthorizeSources(sources) <==> forall s :: s in sources ==> !Unauthorized(s)
  {
    if sources != [] {
      UnauthorizedMeaning(sources[0]);
      AuthorizeSourcesMeaning(sources[1..]);
      assert sources == [sources[0]] + sources[1..];
    }
  }

  const MIRROR_KINDS: seq<string> := ["ImageDigestMirrorSet", "ImageTagMirrorSet", "ImageContentSourcePolicy"]

  /** The decision. The request kind is a pointer in the request and is read without a nil test; the
      object of a mirror-set request is the list of its mirror sources. */
  function Authorized(requestKind: Option<string>, content: Raw<seq<string>>): Response {
    if requestKind.None? then Panicked
    else if requestKind.value !in MIRROR_KINDS then Allowed
    else if !content.Decoded? then Errored(400)
    else if AuthorizeSources(content.value) then Allowed
    else Denied
  }

  /** The response for every request: only a mirror set can be refused, for its content exactly when one of
      its sources is unauthorized. */
  lemma MirrorDecision(requestKind: Option<string>, content: Raw<seq<string>>)
    ensures Authorized(requestKind, content) == Denied <==>
            && requestKind.Some? && content.Decoded?
            && requestKind.value in ["ImageDigestMirrorSet", "ImageTagMirrorSet", "ImageContentSourcePolicy"]
            && exists s :: s in content.value && Unauthorized(s)
    ensures Authorized(requestKind, content) == Allowed <==>
            && requestKind.Some?
            && (requestKind.value in ["ImageDigestMirrorSet", "ImageTagMirrorSet", "ImageContentSourcePolicy"] ==>
                  content.Decoded? && forall s :: s in content.value ==> !Unauthorized(s))
    ensures Authorized(requestKind, content) == Errored(400) <==>
            && requestKind.Some? && !content.Decoded?
            && requestKind.value in ["ImageDigestMirrorSet", "ImageTagMirrorSet", "ImageContentSourcePolicy"]
    ensures Authorized(requestKind, content) == Panicked <==> requestKind.None?
  {
    if content.Decoded? { AuthorizeSourcesMeaning(content.value); }
    hide Unauthorized, AuthorizeSources;
  }

  /** The order and repetition of the sources do not matter, and leaving sources out never hurts. */
  lemma FewerSourcesKeepAdmission(requestKind: Option<string>, few: seq<string>, many: seq<string>)
    requires Elements(few) <= Elements(many) && Authorized(requestKind, Decoded(many)) == Allowed
    ensures Authorized(requestKind, Decoded(few)) == Allowed
  {
    MirrorDecision(requestKind, Decoded(few));
    MirrorDecision(requestKind, Decoded(many));
    hide Unauthorized, Authorized;
    assert forall s :: s in few ==> s in Elements(many);
  }
}
