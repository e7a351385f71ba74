/** The regular-expression tables behind the allow and deny lists, and what they mean as plain
    string tests: pkg/webhooks/utils/utils.go, pkg/config, and the expressions of the namespace hook. */
module Patterns {
  import opened Prelude
  import opened Text
  import opened Regex

  // ---------------------------------------------------------------- reasoning about prefixes of a text

  lemma StartsLit(w: string, s: string, i: nat)
    ensures Starts(Lit(w), s, i) <==> LitAt(w, s, i)
  {
    if LitAt(w, s, i) { assert Matches(Lit(w), s, i, i + |w|); }
  }

  lemma StartsLitCat(w: string, b: Re, s: string, i: nat)
    ensures Starts(Cat(Lit(w), b), s, i) <==> LitAt(w, s, i) && Starts(b, s, i + |w|)
  {
    if j: nat :| Matches(Cat(Lit(w), b), s, i, j) {
      var m := CatSplit(Lit(w), b, s, i, j);
      assert Matches(b, s, i + |w|, j);
    }
    var n := i + |w|;
    if j: nat :| LitAt(w, s, i) && Matches(b, s, n, j) {
      assert Matches(Lit(w), s, i, i + |w|);
      CatMatches(Lit(w), b, s, i, i + |w|, j);
    }
  }

  lemma StartsChrCat(k: Class, b: Re, s: string, i: nat)
    ensures Starts(Cat(Chr(k), b), s, i) <==> i < |s| && In(s[i], k) && Starts(b, s, i + 1)
  {
    if j: nat :| Matches(Cat(Chr(k), b), s, i, j) {
      var m := CatSplit(Chr(k), b, s, i, j);
      assert Matches(b, s, i + 1, j);
    }
    var n := i + 1;
    if j: nat :| i < |s| && In(s[i], k) && Matches(b, s, n, j) {
      assert Matches(Chr(k), s, i, i + 1);
      CatMatches(Chr(k), b, s, i, i + 1, j);
    }
  }

  lemma StartsBeginCat(b: Re, s: string)
    ensures Starts(Cat(Begin, b), s, 0) <==> Starts(b, s, 0)
  {
    if j: nat :| Matches(Cat(Begin, b), s, 0, j) {
      var m := CatSplit(Begin, b, s, 0, j);
      assert Matches(b, s, 0, j);
    }
    if j: nat :| Matches(b, s, 0, j) {
      assert Matches(Begin, s, 0, 0);
      CatMatches(Begin, b, s, 0, 0, j);
    }
  }

  lemma StartsAlt(a: Re, b: Re, s: string, i: nat)
    ensures Starts(Alt(a, b), s, i) <==> Starts(a, s, i) || Starts(b, s, i)
  {
    if j: nat :| Matches(Alt(a, b), s, i, j) { assert Matches(a, s, i, j) || Matches(b, s, i, j); }
    if j: nat :| Matches(a, s, i, j) { assert Matches(Alt(a, b), s, i, j); }
    if j: nat :| Matches(b, s, i, j) { assert Matches(Alt(a, b), s, i, j); }
  }

  lemma StartsGroup(name: string, a: Re, s: string, i: nat)
    ensures Starts(Group(name, a), s, i) <==> Starts(a, s, i)
  {
    if j: nat :| Matches(a, s, i, j) { assert Matches(Group(name, a), s, i, j); }
    if j: nat :| Matches(Group(name, a), s, i, j) { assert Matches(a, s, i, j); }
  }

  lemma StartsStar(k: Class, s: string, i: nat)
    requires i <= |s|
    ensures Starts(Star(k), s, i)
  {
    assert Matches(Star(k), s, i, i);
  }

  lemma StartsOpt(a: Re, s: string, i: nat)
    requires i <= |s|
    ensures Starts(Opt(a), s, i)
  {
    StartsAlt(a, Lit(""), s, i);
    StartsLit("", s, i);
  }

  lemma StartsOptCat(a: Re, b: Re, s: string, i: nat)
    requires i <= |s|
    ensures Starts(Cat(Opt(a), b), s, i) <==> Starts(Cat(a, b), s, i) || Starts(b, s, i)
  {
    if j: nat :| Matches(Cat(Opt(a), b), s, i, j) {
      var m := CatSplit(Opt(a), b, s, i, j);
      if Matches(a, s, i, m) { CatMatches(a, b, s, i, m, j); } else { assert Matches(b, s, i, j); }
    }
    if j: nat :| Matches(Cat(a, b), s, i, j) {
      var m := CatSplit(a, b, s, i, j);
      assert Matches(Opt(a), s, i, m);
      CatMatches(Opt(a), b, s, i, m, j);
    }
    if j: nat :| Matches(b, s, i, j) {
      assert Matches(Lit(""), s, i, i);
      assert Matches(Opt(a), s, i, i);
      CatMatches(Opt(a), b, s, i, i, j);
    }
  }

  lemma StartsEnd(s: string, i: nat)
    ensures Starts(End, s, i) <==> i == |s|
  {
    if i == |s| { assert Matches(End, s, i, i); }
  }

  /** `k*$` */
  lemma StartsStarEnd(k: Class, s: string, i: nat)
    requires i <= |s|
    ensures Starts(Cat(Star(k), End), s, i) <==> AllIn(s, i, |s|, k)
  {
    if j: nat :| Matches(Cat(Star(k), End), s, i, j) {
      var m := CatSplit(Star(k), End, s, i, j);
    }
    if AllIn(s, i, |s|, k) {
      assert Matches(Star(k), s, i, |s|) && Matches(End, s, |s|, |s|);
      CatMatches(Star(k), End, s, i, |s|, |s|);
    }
  }

  /** `(ab)c` and `a(bc)`, with or without the capturing group. */
  lemma StartsAssoc(name: string, a: Re, b: Re, c: Re, s: string, i: nat)
    ensures Starts(Cat(Group(name, Cat(a, b)), c), s, i) <==> Starts(Cat(a, Cat(b, c)), s, i)
  {
    if j: nat :| Matches(Cat(Group(name, Cat(a, b)), c), s, i, j) {
      var n := CatSplit(Group(name, Cat(a, b)), c, s, i, j);
      var m := CatSplit(a, b, s, i, n);
      CatMatches(b, c, s, m, n, j);
      CatMatches(a, Cat(b, c), s, i, m, j);
    }
    if j: nat :| Matches(Cat(a, Cat(b, c)), s, i, j) {
      var m := CatSplit(a, Cat(b, c), s, i, j);
      var n := CatSplit(b, c, s, m, j);
      CatMatches(a, b, s, i, m, n);
      assert Matches(Group(name, Cat(a, b)), s, i, n);
      CatMatches(Group(name, Cat(a, b)), c, s, i, n, j);
    }
  }

  lemma {:induction false} StartsTimes(k: Class, n: nat, s: string, i: nat)
    requires i <= |s|
    ensures Starts(Times(k, n), s, i) <==> i + n <= |s| && AllIn(s, i, i + n, k)
    decreases n
  {
    if n == 0 {
      StartsLit("", s, i);
    } else {
      StartsChrCat(k, Times(k, n - 1), s, i);
      if i < |s| { StartsTimes(k, n - 1, s, i + 1); }
    }
  }

  lemma LitAtSuffix(w: string, s: string, i: nat)
    requires i <= |s|
    ensures LitAt(w, s, i) <==> HasPrefix(s[i..], w)
  {
  }

  // ---------------------------------------------------------------- privileged service accounts

  const SERVICE_ACCOUNTS: string := "system:serviceaccounts:"

  /** `^system:serviceaccounts:(kube-.*|openshift|openshift-.*|default|redhat-.*|osde2e-(h-)?[a-z0-9]{5})` */
  const PRIVILEGED_ACCOUNTS_RE: Re :=
    Cat(Begin, Cat(Lit(SERVICE_ACCOUNTS), Group("1", ACCOUNT_ALTERNATIVES_RE)))

  const ACCOUNT_ALTERNATIVES_RE: Re :=
      Alt(Cat(Lit("kube-"), Star(Dot)),
      Alt(Lit("openshift"),
      Alt(Cat(Lit("openshift-"), Star(Dot)),
      Alt(Lit("default"),
      Alt(Cat(Lit("redhat-"), Star(Dot)),
          Cat(Lit("osde2e-"), Cat(Opt(Group("2", Lit("h-"))), Times(LowerAlnum, 5))))))))

  predicate FiveLowerAlnum(s: string) {
    |s| >= 5 && forall x :: 0 <= x < 5 ==> 'a' <= s[x] <= 'z' || '0' <= s[x] <= '9'
  }

  predicate PrivilegedAccountName(t: string) {
    || HasPrefix(t, "kube-") || HasPrefix(t, "openshift")
    || HasPrefix(t, "default") || HasPrefix(t, "redhat-")
    || (HasPrefix(t, "osde2e-") &&
        (FiveLowerAlnum(t[7..]) || (HasPrefix(t[7..], "h-") && FiveLowerAlnum(t[9..]))))
  }

  lemma FiveAt(g: string, i: nat)
    requires i <= |g|
    ensures Starts(Times(LowerAlnum, 5), g, i) <==> FiveLowerAlnum(g[i..])
  {
    StartsTimes(LowerAlnum, 5, g, i);
    var t := g[i..];
    assert forall x :: 0 <= x < |t| ==> t[x] == g[i + x];
    assert forall x :: i <= x < |g| ==> g[x] == t[x - i];
  }

  lemma Osde2eSuffix(g: string, i: nat)
    requires i <= |g|
    ensures Starts(Cat(Opt(Group("2", Lit("h-"))), Times(LowerAlnum, 5)), g, i) <==>
            FiveLowerAlnum(g[i..]) || (HasPrefix(g[i..], "h-") && FiveLowerAlnum(g[i + 2..]))
  {
    var h, five := Lit("h-"), Times(LowerAlnum, 5);
    StartsOptCat(Group("2", h), five, g, i);
    FiveAt(g, i);
    GroupCat("2", h, five, g, i);
    StartsLitCat("h-", five, g, i);
    LitAtSuffix("h-", g, i);
    if i + 2 <= |g| { FiveAt(g, i + 2); }
  }

  lemma GroupCat(name: string, a: Re, b: Re, s: string, i: nat)
    ensures Starts(Cat(Group(name, a), b), s, i) <==> Starts(Cat(a, b), s, i)
  {
    if j: nat :| Matches(Cat(Group(name, a), b), s, i, j) {
      var m := CatSplit(Group(name, a), b, s, i, j);
      CatMatches(a, b, s, i, m, j);
    }
    if j: nat :| Matches(Cat(a, b), s, i, j) {
      var m := CatSplit(a, b, s, i, j);
      assert Matches(Group(name, a), s, i, m);
      CatMatches(Group(name, a), b, s, i, m, j);
    }
  }

  lemma StartsLitStar(w: string, k: Class, s: string, i: nat)
    ensures Starts(Cat(Lit(w), Star(k)), s, i) <==> LitAt(w, s, i)
  {
    StartsLitCat(w, Star(k), s, i);
    if LitAt(w, s, i) { StartsStar(k, s, i + |w|); }
  }

  /** The alternatives after the common prefix, at position `i`. */
  lemma AlternativesMeaning(g: string, i: nat)
    requires i <= |g|
    ensures Starts(ACCOUNT_ALTERNATIVES_RE, g, i) <==> PrivilegedAccountName(g[i..])
  {
    var t, a1 := g[i..], ACCOUNT_ALTERNATIVES_RE;
    var a2, a3, a4, a5 := a1.b, a1.b.b, a1.b.b.b, a1.b.b.b.b;
    StartsAlt(a1.a, a2, g, i);
    StartsAlt(a2.a, a3, g, i);
    StartsAlt(a3.a, a4, g, i);
    StartsAlt(a4.a, a5, g, i);
    StartsAlt(a5.a, a5.b, g, i);
    StartsLitCat("osde2e-", a5.b.b, g, i);
    hide Starts;
    StartsLitStar("kube-", Dot, g, i);
    StartsLit("openshift", g, i);
    StartsLitStar("openshift-", Dot, g, i);
    StartsLit("default", g, i);
    StartsLitStar("redhat-", Dot, g, i);
    forall w ensures LitAt(w, g, i) <==> HasPrefix(t, w) { LitAtSuffix(w, g, i); }
    if HasPrefix(t, "openshift-") { PrefixOfPrefix(t, "openshift-", "openshift"); }
    if HasPrefix(t, "osde2e-") {
      Osde2eSuffix(g, i + 7);
      assert g[i + 7..] == t[7..];
      if i + 9 <= |g| { assert g[i + 9..] == t[9..]; }
    }
  }

  /** The service-account expression means a prefix test on the account's namespace. */
  lemma PrivilegedGroupMeaning(g: string)
    ensures IsMatch(PRIVILEGED_ACCOUNTS_RE, g) <==>
            HasPrefix(g, "system:serviceaccounts:") && PrivilegedAccountName(g[23..])
  {
    var r := PRIVILEGED_ACCOUNTS_RE;
    AnchoredMatch(r, g);
    StartsBeginCat(r.b, g);
    StartsLitCat(SERVICE_ACCOUNTS, r.b.b, g, 0);
    LitAtSuffix(SERVICE_ACCOUNTS, g, 0);
    assert g[0..] == g;
    hide Starts, IsMatch, PrivilegedAccountName;
    if HasPrefix(g, SERVICE_ACCOUNTS) {
      StartsGroup("1", ACCOUNT_ALTERNATIVES_RE, g, |SERVICE_ACCOUNTS|);
      AlternativesMeaning(g, |SERVICE_ACCOUNTS|);
    }
  }

  lemma PrefixOfPrefix(s: string, long: string, short: string)
    requires HasPrefix(long, short) && HasPrefix(s, long)
    ensures HasPrefix(s, short)
  {
  }

  // ---------------------------------------------------------------- name tables

  /** `^name$` */
  function Exactly(name: string): Re { Cat(Begin, Cat(Lit(name), End)) }

  /** `^prefix.*` */
  function StartingWith(prefix: string): Re { Cat(Begin, Cat(Lit(prefix), Star(Dot))) }

  lemma ExactlyMeaning(name: string, s: string)
    ensures IsMatch(Exactly(name), s) <==> s == name
  {
    AnchoredMatch(Exactly(name), s);
    StartsBeginCat(Cat(Lit(name), End), s);
    StartsLitCat(name, End, s, 0);
    StartsEnd(s, |name|);
  }

  lemma StartingWithMeaning(prefix: string, s: string)
    ensures IsMatch(StartingWith(prefix), s) <==> HasPrefix(s, prefix)
  {
    AnchoredMatch(StartingWith(prefix), s);
    StartsBeginCat(Cat(Lit(prefix), Star(Dot)), s);
    StartsLitStar(prefix, Dot, s, 0);
    LitAtSuffix(prefix, s, 0);
    assert s[0..] == s;
  }

  /** True when some expression of the table matches the needle. */
  predicate RegexSliceContains(needle: string, haystack: seq<Re>) {
    exists i :: 0 <= i < |haystack| && IsMatch(haystack[i], needle)
  }

  lemma SliceContainsConcat(needle: string, a: seq<Re>, b: seq<Re>)
    ensures RegexSliceContains(needle, a + b) <==> RegexSliceContains(needle, a) || RegexSliceContains(needle, b)
  {
    var ab := a + b;
    if i :| 0 <= i < |ab| && IsMatch(ab[i], needle) {
      if i < |a| { assert IsMatch(a[i], needle); } else { assert IsMatch(b[i - |a|], needle); }
    }
    if i :| 0 <= i < |a| && IsMatch(a[i], needle) { assert IsMatch(ab[i], needle); }
    if i :| 0 <= i < |b| && IsMatch(b[i], needle) { assert IsMatch(ab[|a| + i], needle); }
  }

  function AllExactly(names: seq<string>): seq<Re> {
    seq(|names|, i requires 0 <= i < |names| => Exactly(names[i]))
  }

  lemma AllExactlyMeaning(names: seq<string>, s: string)
    ensures RegexSliceContains(s, AllExactly(names)) <==> s in names
  {
    var res := AllExactly(names);
    if i :| 0 <= i < |res| && IsMatch(res[i], s) { ExactlyMeaning(names[i], s); }
    if i :| 0 <= i < |names| && names[i] == s {
      ExactlyMeaning(names[i], s);
      assert IsMatch(res[i], s);
    }
  }

  // ---------------------------------------------------------------- privileged namespaces

  /** The entries of the form `^name$` that follow the two prefix entries, in table order. */
  const MANAGED_NAMES: seq<string> := [
    "dedicated-admin", "openshift-addon-operator", "openshift-aqua", "openshift-aws-vpce-operator",
    "openshift-backplane", "openshift-backplane-cee", "openshift-backplane-csa", "openshift-backplane-cse",
    "openshift-backplane-csm", "openshift-backplane-managed-scripts", "openshift-backplane-mobb",
    "openshift-backplane-srep", "openshift-backplane-srep-ro", "openshift-backplane-tam",
    "openshift-cloud-ingress-operator", "openshift-codeready-workspaces", "openshift-compliance",
    "openshift-compliance-monkey", "openshift-container-security", "openshift-custom-domains-operator",
    "openshift-customer-monitoring", "openshift-deployment-validation-operator",
    "openshift-managed-node-metadata-operator", "openshift-file-integrity", "openshift-logging",
    "openshift-managed-upgrade-operator", "openshift-must-gather-operator", "openshift-observability-operator",
    "openshift-ocm-agent-operator", "openshift-operators-redhat", "openshift-osd-metrics",
    "openshift-rbac-permissions", "openshift-route-monitor-operator", "openshift-scanning",
    "openshift-security", "openshift-splunk-forwarder-operator", "openshift-sre-pruning", "openshift-suricata",
    "openshift-validation-webhook", "openshift-velero", "openshift-monitoring", "openshift",
    "openshift-cluster-version", "goalert", "keycloak", "configure-goalert-operator", "kube-system",
    "openshift-apiserver", "openshift-apiserver-operator", "openshift-authentication",
    "openshift-authentication-operator", "openshift-cloud-controller-manager",
    "openshift-cloud-controller-manager-operator", "openshift-cloud-credential-operator",
    "openshift-cloud-network-config-controller", "openshift-cluster-api", "openshift-cluster-csi-drivers",
    "openshift-cluster-machine-approver", "openshift-cluster-node-tuning-operator",
    "openshift-cluster-samples-operator", "openshift-cluster-storage-operator", "openshift-config",
    "openshift-config-managed", "openshift-config-operator", "openshift-console", "openshift-console-operator",
    "openshift-console-user-settings", "openshift-controller-manager", "openshift-controller-manager-operator",
    "openshift-dns", "openshift-dns-operator", "openshift-etcd", "openshift-etcd-operator",
    "openshift-host-network", "openshift-image-registry", "openshift-ingress", "openshift-ingress-canary",
    "openshift-ingress-operator", "openshift-insights", "openshift-kni-infra", "openshift-kube-apiserver",
    "openshift-kube-apiserver-operator", "openshift-kube-controller-manager",
    "openshift-kube-controller-manager-operator", "openshift-kube-scheduler",
    "openshift-kube-scheduler-operator", "openshift-kube-storage-version-migrator",
    "openshift-kube-storage-version-migrator-operator", "openshift-machine-api",
    "openshift-machine-config-operator", "openshift-marketplace", "openshift-monitoring", "openshift-multus",
    "openshift-network-diagnostics", "openshift-network-operator", "openshift-nutanix-infra",
    "openshift-oauth-apiserver", "openshift-openstack-infra", "openshift-operator-lifecycle-manager",
    "openshift-operators", "openshift-ovirt-infra", "openshift-sdn", "openshift-ovn-kubernetes",
    "openshift-platform-operators", "openshift-route-controller-manager", "openshift-service-ca",
    "openshift-service-ca-operator", "openshift-user-workload-monitoring", "openshift-vsphere-infra"
  ]

  const PRIVILEGED_NAMESPACES: seq<Re> :=
    AllExactly(["default", "openshift"])
    + ([StartingWith("kube-"), StartingWith("redhat-")] + AllExactly(MANAGED_NAMES))

  predicate IsPrivilegedNamespace(ns: string) { RegexSliceContains(ns, PRIVILEGED_NAMESPACES) }

  lemma TableMeaning(ns: string, first: seq<string>, p: string, q: string, last: seq<string>)
    ensures RegexSliceContains(ns, AllExactly(first) + ([StartingWith(p), StartingWith(q)] + AllExactly(last))) <==>
            ns in first || ns in last || HasPrefix(ns, p) || HasPrefix(ns, q)
  {
    var heads := [StartingWith(p), StartingWith(q)];
    SliceContainsConcat(ns, AllExactly(first), heads + AllExactly(last));
    SliceContainsConcat(ns, heads, AllExactly(last));
    AllExactlyMeaning(first, ns);
    AllExactlyMeaning(last, ns);
    StartingWithMeaning(p, ns);
    StartingWithMeaning(q, ns);
    assert RegexSliceContains(ns, heads) <==> IsMatch(heads[0], ns) || IsMatch(heads[1], ns);
  }

  /** A name is privileged when it is listed or starts with one of the two prefixes. */
  lemma PrivilegedNamespaceMeaning(ns: string)
    ensures IsPrivilegedNamespace(ns) <==>
            ns in ["default", "openshift"] || ns in MANAGED_NAMES || HasPrefix(ns, "kube-") || HasPrefix(ns, "redhat-")
  {
    TableMeaning(ns, ["default", "openshift"], "kube-", "redhat-", MANAGED_NAMES);
  }

  // ---------------------------------------------------------------- names with their own expression

  /** `(^com$|^io$|^in$)` */
  const BAD_NAMESPACE_RE: Re := Group("1", Alt(Exactly("com"), Alt(Exactly("io"), Exactly("in"))))

  lemma BadNamespaceMeaning(ns: string)
    ensures IsMatch(BAD_NAMESPACE_RE, ns) <==> ns in ["com", "io", "in"]
  {
    AnchoredMatch(BAD_NAMESPACE_RE, ns);
    var a := BAD_NAMESPACE_RE.a;
    StartsGroup("1", a, ns, 0);
    StartsAlt(a.a, a.b, ns, 0);
    StartsAlt(a.b.a, a.b.b, ns, 0);
    ExactlyStarts("com", ns);
    ExactlyStarts("io", ns);
    ExactlyStarts("in", ns);
  }

  lemma ExactlyStarts(name: string, s: string)
    ensures Starts(Exactly(name), s, 0) <==> s == name
  {
    ExactlyMeaning(name, s);
    AnchoredMatch(Exactly(name), s);
  }

  /** `^redhat-.*` */
  const LAYERED_PRODUCT_RE: Re := StartingWith("redhat-")
}
