/** pkg/webhooks/namespace/namespace.go: who may touch a namespace, and how its protected labels are
    frozen across updates. */
module Namespaces {
  import opened Prelude
  import opened Text
  import opened Regex
  import opened Patterns
  import opened Admission

  type Labels = map<string, string>

  datatype Namespace = Namespace(name: string, labels: Labels)

  type NsRequest = Request<Namespace>

  const LAYERED_PRODUCT_ADMIN_GROUP: string := "layered-sre-cluster-admins"
  const CLUSTER_ADMIN_GROUP: string := "cluster-admins"
  const CLUSTER_ADMIN_USERS: seq<string> := ["kube:admin", "system:admin", "backplane-cluster-admin"]
  const SRE_ADMIN_GROUPS: seq<string> := ["system:serviceaccounts:openshift-backplane-srep"]
  const PROTECTED_LABELS: seq<string> :=
    ["managed.openshift.io/storage-pv-quota-exempt", "managed.openshift.io/service-lb-quota-exempt"]

  lemma ProtectedLabelsDistinct()
    ensures Distinct(PROTECTED_LABELS)
  {
  }

  // ---------------------------------------------------------------- label check

  /** Go's map read: a missing key reads as the empty string. */
  function Read(labels: Labels, key: string): string {
    if key in labels then labels[key] else ""
  }

  function FoundIn(labels: Labels, keys: seq<string>): seq<string> {
    Filter(k => k in labels, keys)
  }

  /** The part of a label map that lies on the given keys. */
  function Restrict(labels: Labels, keys: seq<string>): Labels {
    map k | k in labels && k in keys :: labels[k]
  }

  /** The scan of doesNamespaceContainProtectedLabels. */
  method ContainedLabels(labels: Labels, keys: seq<string>) returns (found: seq<string>)
    ensures found == FoundIn(labels, keys)
  {
    found := [];
    for i := 0 to |keys|
      invariant found == FoundIn(labels, keys[..i])
    {
      FilterConcat(k => k in labels, keys[..i], [keys[i]]);
      assert keys[..i + 1] == keys[..i] + [keys[i]];
      if keys[i] in labels {
        found := found + [keys[i]];
      }
    }
    assert keys[..|keys|] == keys;
  }

  /** The count comparison and the value comparison of an update, for any list of protected keys. */
  predicate LabelsUnchanged(before: Labels, after: Labels, keys: seq<string>) {
    && |FoundIn(before, keys)| == |FoundIn(after, keys)|
    && forall k :: k in FoundIn(before, keys) ==> Read(before, k) == Read(after, k)
  }

  /** Some protected label is present with an empty value while another one is missing. */
  predicate Swappable(labels: Labels, keys: seq<string>) {
    exists k, p :: k in keys && p in keys && k in labels && labels[k] == "" && p !in labels
  }

  lemma FoundMembers(labels: Labels, keys: seq<string>)
    ensures forall k :: k in FoundIn(labels, keys) <==> k in keys && k in labels
  {
    forall k ensures k in FoundIn(labels, keys) <==> k in keys && k in labels {
      FilterMembers(x => x in labels, keys, k);
    }
  }

  lemma FoundCount(labels: Labels, keys: seq<string>)
    requires Distinct(keys)
    ensures |FoundIn(labels, keys)| == |Restrict(labels, keys).Keys|
    ensures Elements(FoundIn(labels, keys)) == Restrict(labels, keys).Keys
  {
    FoundMembers(labels, keys);
    DistinctFilter(k => k in labels, keys);
    DistinctSize(FoundIn(labels, keys));
    assert Elements(FoundIn(labels, keys)) == Restrict(labels, keys).Keys;
  }

  /** Equal protected parts always pass the check. */
  lemma EqualPasses(before: Labels, after: Labels, keys: seq<string>)
    requires Distinct(keys) && Restrict(before, keys) == Restrict(after, keys)
    ensures LabelsUnchanged(before, after, keys)
  {
    FoundCount(before, keys);
    FoundCount(after, keys);
    FoundMembers(before, keys);
    forall k | k in FoundIn(before, keys) ensures Read(before, k) == Read(after, k) {
      assert k in Restrict(before, keys);
      assert Restrict(before, keys)[k] == Restrict(after, keys)[k];
    }
  }

  /** Pigeonhole: from a map that is not swappable, passing the check means the protected parts agree. */
  lemma PassEqual(before: Labels, after: Labels, keys: seq<string>)
    requires Distinct(keys) && !Swappable(before, keys)
    requires LabelsUnchanged(before, after, keys)
    ensures Restrict(before, keys) == Restrict(after, keys)
  {
    FoundCount(before, keys);
    FoundCount(after, keys);
    FoundMembers(before, keys);
    var o, n := Restrict(before, keys), Restrict(after, keys);
    if exists k :: k in o && k !in n {
      var k :| k in o && k !in n;
      assert Read(before, k) == "";
      forall p | p in n.Keys ensures p in o.Keys {
        assert p in keys;
      }
      SubsetSize(n.Keys, o.Keys);
    } else {
      SubsetSize(o.Keys, n.Keys);
    }
    assert o.Keys == n.Keys;
    forall k | k in o ensures o[k] == n[k] {
      assert k in FoundIn(before, keys);
    }
  }

  /** From a swappable map the check lets a protected label be traded for another. */
  lemma SwapPasses(before: Labels, keys: seq<string>) returns (after: Labels)
    requires Distinct(keys) && Swappable(before, keys)
    ensures LabelsUnchanged(before, after, keys)
    ensures Restrict(before, keys) != Restrict(after, keys)
  {
    var k, p :| k in keys && p in keys && k in before && before[k] == "" && p !in before;
    after := (before - {k})[p := ""];
    FoundCount(before, keys);
    FoundCount(after, keys);
    FoundMembers(before, keys);
    var o, n := Restrict(before, keys), Restrict(after, keys);
    hide FoundIn;
    assert n.Keys == (o.Keys - {k}) + {p};
    assert k in o && k !in n && p !in o;
    assert |n.Keys| == |o.Keys|;
  }

  /** The check freezes the protected labels of an object, whatever the update, exactly when that
      object does not hold an empty protected label beside a missing one. */
  lemma FreezesExactly(before: Labels, keys: seq<string>)
    requires Distinct(keys)
    ensures (forall after :: LabelsUnchanged(before, after, keys) <==> Restrict(before, keys) == Restrict(after, keys))
            <==> !Swappable(before, keys)
  {
    if Swappable(before, keys) {
      var after := SwapPasses(before, keys);
      assert LabelsUnchanged(before, after, keys) && Restrict(before, keys) != Restrict(after, keys);
    } else {
      forall after ensures LabelsUnchanged(before, after, keys) <==> Restrict(before, keys) == Restrict(after, keys) {
        if LabelsUnchanged(before, after, keys) { PassEqual(before, after, keys); }
        if Restrict(before, keys) == Restrict(after, keys) { EqualPasses(before, after, keys); }
      }
    }
  }

  /** With non-empty protected values, in particular, the check is equality of the protected parts. */
  lemma NonEmptyValuesFreeze(before: Labels, after: Labels, keys: seq<string>)
    requires Distinct(keys)
    requires forall k :: k in keys && k in before ==> before[k] != ""
    ensures LabelsUnchanged(before, after, keys) <==> Restrict(before, keys) == Restrict(after, keys)
  {
    FreezesExactly(before, keys);
  }

  // ---------------------------------------------------------------- decision

  predicate AmIAdmin(req: NsRequest) {
    || req.username in CLUSTER_ADMIN_USERS
    || CLUSTER_ADMIN_GROUP in req.groups
    || exists g :: g in SRE_ADMIN_GROUPS && g in req.groups
  }

  predicate HasPrivilegedAccountGroup(groups: seq<string>) {
    exists g :: g in groups && IsMatch(PRIVILEGED_ACCOUNTS_RE, g)
  }

  /** renderNamespace: the old object when there is one, else the new. */
  function Rendered(req: NsRequest): Raw<Namespace> {
    if req.oldObject != Absent then req.oldObject else req.newObject
  }

  predicate LayeredProductAccess(req: NsRequest, name: string) {
    LAYERED_PRODUCT_ADMIN_GROUP in req.groups && IsMatch(LAYERED_PRODUCT_RE, name)
  }

  /** The label part of the decision: may the request go on? */
  function LabelVerdict(req: NsRequest): Response {
    if req.operation == Delete then Allowed
    else if req.oldObject == Malformed || req.newObject == Malformed then Denied
    else if req.operation == Create then
      if req.newObject == Absent then Panicked
      else if |FoundIn(req.newObject.value.labels, PROTECTED_LABELS)| == 0 then Allowed else Denied
    else if req.operation == Update then
      if req.oldObject == Absent || req.newObject == Absent then Panicked
      else if LabelsUnchanged(req.oldObject.value.labels, req.newObject.value.labels, PROTECTED_LABELS)
      then Allowed else Denied
    else Allowed
  }

  function Authorized(req: NsRequest): Response {
    if AmIAdmin(req) then Allowed
    else if HasPrivilegedAccountGroup(req.groups) then Allowed
    else if !Rendered(req).Decoded? then Errored(400)
    else
      var name := Rendered(req).value.name;
      if LayeredProductAccess(req, name) then Allowed
      else if IsPrivilegedNamespace(name) then Denied
      else if IsMatch(BAD_NAMESPACE_RE, name) then Denied
      else LabelVerdict(req)
  }

  /** No standing permission: neither an admin, nor a privileged service account, nor a
      layered-product admin on a namespace of that family. */
  predicate Unprivileged(req: NsRequest) {
    && !AmIAdmin(req)
    && !HasPrivilegedAccountGroup(req.groups)
    && (Rendered(req).Decoded? ==> !LayeredProductAccess(req, Rendered(req).value.name))
  }

  /** A name that is neither managed nor harmful. */
  predicate OrdinaryName(name: string) {
    && name !in ["default", "openshift", "com", "io", "in"] && name !in MANAGED_NAMES
    && !HasPrefix(name, "kube-") && !HasPrefix(name, "redhat-")
  }

  /** The identities with standing permission everywhere, by plain string tests. */
  predicate StandingIdentity(req: NsRequest) {
    || req.username in ["kube:admin", "system:admin", "backplane-cluster-admin"]
    || "cluster-admins" in req.groups
    || (exists g :: g in req.groups && HasPrefix(g, "system:serviceaccounts:") && PrivilegedAccountName(g[23..]))
  }

  /** The name a request is judged by: that of the old object, or of the new one when there is no old. */
  function JudgedName(req: NsRequest): Option<string> {
    match req.oldObject
    case Decoded(ns) => Some(ns.name)
    case Malformed => None
    case Absent =>
      match req.newObject
      case Decoded(ns) => Some(ns.name)
      case _ => None
  }

  /** Standing permission, or that of a layered-product admin on a namespace of that family. */
  predicate StandingPermission(req: NsRequest) {
    || StandingIdentity(req)
    || ("layered-sre-cluster-admins" in req.groups
        && JudgedName(req).Some? && HasPrefix(JudgedName(req).value, "redhat-"))
  }

  lemma RenderedExactly(req: NsRequest)
    ensures Rendered(req).Decoded? <==> JudgedName(req).Some?
    ensures Rendered(req).Decoded? ==> Rendered(req).value.name == JudgedName(req).value
  {
  }

  lemma StandingExactly(req: NsRequest)
    ensures StandingPermission(req) <==> !Unprivileged(req)
  {
    forall g ensures IsMatch(PRIVILEGED_ACCOUNTS_RE, g) <==>
                     HasPrefix(g, "system:serviceaccounts:") && PrivilegedAccountName(g[23..])
    {
      PrivilegedGroupMeaning(g);
    }
    RenderedExactly(req);
    if Rendered(req).Decoded? { StartingWithMeaning("redhat-", Rendered(req).value.name); }
    hide IsMatch, PrivilegedAccountName, Rendered, JudgedName;
    if exists g :: g in SRE_ADMIN_GROUPS && g in req.groups { SreGroupIsPrivilegedAccount(req.groups); }
  }

  /** What the label part lets through, in terms of the protected parts of the two label maps: a creation
      carries none; an update keeps their number, and each old label is kept as it was or was empty and
      is gone. */
  predicate LabelsPermitted(req: NsRequest) {
    match req.operation
    case Delete => true
    case Connect => !req.oldObject.Malformed? && !req.newObject.Malformed?
    case Create =>
      !req.oldObject.Malformed? && req.newObject.Decoded? && ProtectedPart(req.newObject.value.labels) == map[]
    case Update =>
      req.oldObject.Decoded? && req.newObject.Decoded?
      && KeptOrTraded(ProtectedPart(req.oldObject.value.labels), ProtectedPart(req.newObject.value.labels))
  }

  function ProtectedPart(labels: Labels): Labels {
    Restrict(labels, ["managed.openshift.io/storage-pv-quota-exempt", "managed.openshift.io/service-lb-quota-exempt"])
  }

  predicate KeptOrTraded(before: Labels, after: Labels) {
    && |before.Keys| == |after.Keys|
    && forall k :: k in before ==> if k in after then after[k] == before[k] else before[k] == ""
  }

  lemma UnchangedExactly(before: Labels, after: Labels, keys: seq<string>)
    requires Distinct(keys)
    ensures LabelsUnchanged(before, after, keys) <==> KeptOrTraded(Restrict(before, keys), Restrict(after, keys))
  {
    FoundCount(before, keys);
    FoundCount(after, keys);
    FoundMembers(before, keys);
    hide FoundIn;
    var o, n := Restrict(before, keys), Restrict(after, keys);
    assert forall k :: k in o <==> k in FoundIn(before, keys);
    assert forall k :: k in o ==> (k in n <==> k in after);
  }

  lemma CreationExactly(labels: Labels, keys: seq<string>)
    requires Distinct(keys)
    ensures |FoundIn(labels, keys)| == 0 <==> Restrict(labels, keys) == map[]
  {
    FoundCount(labels, keys);
    hide FoundIn;
    if Restrict(labels, keys).Keys == {} { assert Restrict(labels, keys) == map[]; }
  }

  lemma LabelVerdictExactly(req: NsRequest)
    ensures LabelVerdict(req) == Allowed <==> LabelsPermitted(req)
  {
    ProtectedLabelsDistinct();
    assert forall labels :: ProtectedPart(labels) == Restrict(labels, PROTECTED_LABELS);
    hide LabelsUnchanged, KeptOrTraded, FoundIn, Restrict, ProtectedPart;
    if req.newObject.Decoded? {
      CreationExactly(req.newObject.value.labels, PROTECTED_LABELS);
      if req.oldObject.Decoded? {
        UnchangedExactly(req.oldObject.value.labels, req.newObject.value.labels, PROTECTED_LABELS);
      }
    }
  }

  /** A part that the label check dereferences is missing, and nothing is malformed. */
  predicate MissingObject(req: NsRequest) {
    && !req.oldObject.Malformed? && !req.newObject.Malformed?
    && ((req.operation == Create && req.newObject.Absent?)
        || (req.operation == Update && (req.oldObject.Absent? || req.newObject.Absent?)))
  }

  lemma LabelVerdictResponse(req: NsRequest)
    ensures LabelVerdict(req) ==
            if LabelsPermitted(req) then Allowed else if MissingObject(req) then Panicked else Denied
  {
    LabelVerdictExactly(req);
    hide LabelsUnchanged, KeptOrTraded, FoundIn, ProtectedPart;
  }

  /** The response to every request, by its fields. */
  lemma ResponseExactly(req: NsRequest)
    ensures Authorized(req) ==
            if StandingPermission(req) then Allowed
            else if JudgedName(req).None? then Errored(400)
            else if !OrdinaryName(JudgedName(req).value) then Denied
            else if LabelsPermitted(req) then Allowed
            else if MissingObject(req) then Panicked
            else Denied
  {
    StandingExactly(req);
    LabelVerdictResponse(req);
    RenderedExactly(req);
    hide StandingPermission, LabelVerdict, LabelsPermitted, AmIAdmin, HasPrivilegedAccountGroup, LayeredProductAccess;
    hide Rendered, JudgedName, MissingObject;
    if JudgedName(req).Some? {
      PrivilegedNamespaceMeaning(JudgedName(req).value);
      BadNamespaceMeaning(JudgedName(req).value);
      hide IsPrivilegedNamespace, IsMatch;
    }
  }

  /** A request is admitted exactly when its sender has standing permission, or when the namespace has
      an ordinary name and the label maps are permitted. */
  lemma AdmissionExactly(req: NsRequest)
    ensures Authorized(req) == Allowed <==>
            || StandingPermission(req)
            || (JudgedName(req).Some? && OrdinaryName(JudgedName(req).value) && LabelsPermitted(req))
  {
    ResponseExactly(req);
    hide Authorized, StandingPermission, JudgedName, OrdinaryName, LabelsPermitted, MissingObject;
  }

  /** Without standing permission: a deletion is judged by the old object's name alone, a creation by the
      new object's name and its protected labels, an update by the old object's name and both protected
      parts; all refusals are denials. */
  lemma PerOperation(req: NsRequest)
    requires !StandingPermission(req)
    ensures req.operation == Delete && req.oldObject.Decoded? ==>
              Authorized(req) == if OrdinaryName(req.oldObject.value.name) then Allowed else Denied
    ensures req.operation == Create && req.oldObject.Absent? && req.newObject.Decoded? ==>
              var ns := req.newObject.value;
              Authorized(req) ==
              if && OrdinaryName(ns.name)
                 && "managed.openshift.io/storage-pv-quota-exempt" !in ns.labels
                 && "managed.openshift.io/service-lb-quota-exempt" !in ns.labels
              then Allowed else Denied
    ensures req.operation == Update && req.oldObject.Decoded? && req.newObject.Decoded? ==>
              var before, after := req.oldObject.value, req.newObject.value;
              Authorized(req) ==
              if OrdinaryName(before.name) && KeptOrTraded(ProtectedPart(before.labels), ProtectedPart(after.labels))
              then Allowed else Denied
  {
    ResponseExactly(req);
    hide Authorized, StandingPermission, OrdinaryName, KeptOrTraded;
    if req.newObject.Decoded? { NoProtectedLabel(req.newObject.value.labels); }
    hide ProtectedPart;
  }

  lemma NoProtectedLabel(labels: Labels)
    ensures ProtectedPart(labels) == map[] <==>
            && "managed.openshift.io/storage-pv-quota-exempt" !in labels
            && "managed.openshift.io/service-lb-quota-exempt" !in labels
  {
    var a, b := "managed.openshift.io/storage-pv-quota-exempt", "managed.openshift.io/service-lb-quota-exempt";
    assert a in labels <==> a in ProtectedPart(labels);
    assert b in labels <==> b in ProtectedPart(labels);
  }

  /** The label part on decoded objects: a creation must carry no protected label, an update must keep
      the protected part as it was (from an object that is not swappable), a deletion is free. */
  lemma LabelVerdictMeaning(req: NsRequest, now: Namespace)
    requires req.newObject == Decoded(now)
    ensures req.operation == Create && req.oldObject != Malformed ==>
              (LabelVerdict(req) == Allowed <==> Restrict(now.labels, PROTECTED_LABELS) == map[])
    ensures req.operation == Update && req.oldObject.Decoded? && !Swappable(req.oldObject.value.labels, PROTECTED_LABELS) ==>
              (LabelVerdict(req) == Allowed <==>
                 Restrict(now.labels, PROTECTED_LABELS) == Restrict(req.oldObject.value.labels, PROTECTED_LABELS))
    ensures req.operation == Delete ==> LabelVerdict(req) == Allowed
  {
    ProtectedLabelsDistinct();
    FoundCount(now.labels, PROTECTED_LABELS);
    if req.operation == Update && req.oldObject.Decoded? {
      FreezesExactly(req.oldObject.value.labels, PROTECTED_LABELS);
    }
    if Restrict(now.labels, PROTECTED_LABELS).Keys == {} { assert Restrict(now.labels, PROTECTED_LABELS) == map[]; }
  }

  /** Membership of the SRE group is already covered by the privileged service accounts. */
  lemma SreGroupIsPrivilegedAccount(groups: seq<string>)
    requires exists g :: g in SRE_ADMIN_GROUPS && g in groups
    ensures HasPrivilegedAccountGroup(groups)
  {
    hide IsMatch;
    var g := SRE_ADMIN_GROUPS[0];
    assert g == "system:serviceaccounts:" + "openshift-backplane-srep";
    OpenShiftAccount(g, "openshift-backplane-srep");
  }

  lemma OpenShiftAccount(g: string, account: string)
    requires g == "system:serviceaccounts:" + account && HasPrefix(account, "openshift")
    ensures IsMatch(PRIVILEGED_ACCOUNTS_RE, g)
  {
    PrivilegedGroupMeaning(g);
    hide IsMatch;
    assert g[..23] == "system:serviceaccounts:" && g[23..] == account;
  }

  // ---------------------------------------------------------------- groups

  /** Joining more groups never loses an admission. */
  lemma MoreGroupsKeepAdmission(req: NsRequest, groups: seq<string>)
    requires MoreGroups(req.groups, groups) && Authorized(req) == Allowed
    ensures Authorized(WithGroups(req, groups)) == Allowed
  {
    hide IsPrivilegedNamespace, IsMatch;
    var more := WithGroups(req, groups);
    assert AmIAdmin(req) ==> AmIAdmin(more);
    assert Rendered(more) == Rendered(req) && LabelVerdict(more) == LabelVerdict(req);
  }

  /** The whole response depends on the set of groups, not on their order or repetition. */
  lemma GroupsAreASet(req: NsRequest, groups: seq<string>)
    requires MoreGroups(req.groups, groups) && MoreGroups(groups, req.groups)
    ensures Authorized(WithGroups(req, groups)) == Authorized(req)
  {
    hide IsPrivilegedNamespace, IsMatch;
    var other := WithGroups(req, groups);
    assert AmIAdmin(req) <==> AmIAdmin(other);
    assert HasPrivilegedAccountGroup(req.groups) <==> HasPrivilegedAccountGroup(groups);
    assert Rendered(other) == Rendered(req) && LabelVerdict(other) == LabelVerdict(req);
  }

  // ---------------------------------------------------------------- runs

  /** A run of admitted updates of one namespace, by any mix of identities: `states[i]` is stored before
      request `i` and `states[i + 1]` after it. */
  predicate AdmittedRun(states: seq<Namespace>, run: seq<NsRequest>) {
    && |states| == |run| + 1
    && forall i :: 0 <= i < |run| ==>
         && run[i].operation == Update
         && run[i].oldObject == Decoded(states[i]) && run[i].newObject == Decoded(states[i + 1])
         && Authorized(run[i]) == Allowed
  }

  predicate AllUnprivileged(run: seq<NsRequest>) {
    forall i :: 0 <= i < |run| ==> Unprivileged(run[i])
  }

  /** The position just after the last request with standing permission among the first `n`, or 0. */
  function LastPrivileged(run: seq<NsRequest>, n: nat): (k: nat)
    requires n <= |run|
    ensures k <= n && (k > 0 ==> !Unprivileged(run[k - 1]))
    ensures forall i :: k <= i < n ==> Unprivileged(run[i])
  {
    if n == 0 then 0 else if !Unprivileged(run[n - 1]) then n else LastPrivileged(run, n - 1)
  }

  lemma UnprivilegedUpdateChecksLabels(req: NsRequest, before: Namespace, after: Namespace)
    requires req.operation == Update && req.oldObject == Decoded(before) && req.newObject == Decoded(after)
    requires Unprivileged(req) && Authorized(req) == Allowed
    ensures LabelsUnchanged(before.labels, after.labels, PROTECTED_LABELS)
  {
    hide IsPrivilegedNamespace, IsMatch, LabelsUnchanged;
  }

  /** At every point of every run, by any mix of identities, the protected labels are those stored by the
      last request with standing permission (or the initial ones), as long as what that request left
      behind is not swappable. */
  lemma {:induction false} LabelsHavePrivilegedAuthor(states: seq<Namespace>, run: seq<NsRequest>, n: nat)
    requires AdmittedRun(states, run) && n <= |run|
    requires !Swappable(states[LastPrivileged(run, n)].labels, PROTECTED_LABELS)
    ensures Restrict(states[n].labels, PROTECTED_LABELS) ==
            Restrict(states[LastPrivileged(run, n)].labels, PROTECTED_LABELS)
  {
    hide Unprivileged, Authorized, LabelsUnchanged, Swappable, Restrict;
    if LastPrivileged(run, n) < n {
      LabelsHavePrivilegedAuthor(states, run, n - 1);
      var author, before, after := states[LastPrivileged(run, n)], states[n - 1], states[n];
      SwappableDependsOnRestrict(author.labels, before.labels, PROTECTED_LABELS);
      UnprivilegedUpdateChecksLabels(run[n - 1], before, after);
      ProtectedLabelsDistinct();
      PassEqual(before.labels, after.labels, PROTECTED_LABELS);
    }
  }

  lemma SwappableDependsOnRestrict(a: Labels, b: Labels, keys: seq<string>)
    requires Restrict(a, keys) == Restrict(b, keys)
    ensures Swappable(a, keys) <==> Swappable(b, keys)
  {
    SwappableCarries(a, b, keys);
    SwappableCarries(b, a, keys);
  }

  lemma SwappableCarries(a: Labels, b: Labels, keys: seq<string>)
    requires Restrict(a, keys) == Restrict(b, keys)
    ensures Swappable(a, keys) ==> Swappable(b, keys)
  {
    if k, p :| k in keys && p in keys && k in a && a[k] == "" && p !in a {
      assert k in Restrict(b, keys) && Restrict(b, keys)[k] == "";
      assert p !in Restrict(a, keys);
      assert p !in b;
    }
  }

  /** Over any run of admitted unprivileged updates the protected labels keep their initial value. */
  lemma RunFreezesLabels(states: seq<Namespace>, run: seq<NsRequest>)
    requires AdmittedRun(states, run) && AllUnprivileged(run)
    requires !Swappable(states[0].labels, PROTECTED_LABELS)
    ensures Restrict(states[|run|].labels, PROTECTED_LABELS) == Restrict(states[0].labels, PROTECTED_LABELS)
  {
    hide Unprivileged, Authorized, Swappable, Restrict;
    LabelsHavePrivilegedAuthor(states, run, |run|);
  }

  /** The sender of the counterexample: nobody in particular, in no group. */
  function CustomerUpdate(before: Namespace, after: Namespace): NsRequest {
    Request(Update, "Namespace", "", "customer", [], Decoded(after), Decoded(before))
  }

  lemma CustomerUpdateAdmitted(before: Namespace, after: Namespace)
    requires OrdinaryName(before.name) && LabelsUnchanged(before.labels, after.labels, PROTECTED_LABELS)
    ensures Unprivileged(CustomerUpdate(before, after)) && Authorized(CustomerUpdate(before, after)) == Allowed
  {
    var req := CustomerUpdate(before, after);
    assert !StandingPermission(req) by { assert forall u :: u in CLUSTER_ADMIN_USERS ==> u != "customer"; }
    hide StandingPermission, LabelsUnchanged, OrdinaryName;
    StandingExactly(req);
    AdmissionExactly(req);
    LabelVerdictExactly(req);
    hide Authorized, Unprivileged, LabelsPermitted;
  }

  /** From a swappable object with an ordinary name, an ordinary user's update is admitted that changes
      the protected labels. */
  lemma SwapAdmitted(start: Namespace) returns (next: Namespace)
    requires OrdinaryName(start.name) && Swappable(start.labels, PROTECTED_LABELS)
    ensures AdmittedRun([start, next], [CustomerUpdate(start, next)]) && AllUnprivileged([CustomerUpdate(start, next)])
    ensures Restrict(next.labels, PROTECTED_LABELS) != Restrict(start.labels, PROTECTED_LABELS)
  {
    hide Authorized, Unprivileged, OrdinaryName, Swappable, LabelsUnchanged, Restrict;
    ProtectedLabelsDistinct();
    var labels := SwapPasses(start.labels, PROTECTED_LABELS);
    next := start.(labels := labels);
    CustomerUpdateAdmitted(start, next);
  }

  /** The two labels of the hook: an ordinary user removes the first, which was empty, and sets the second. */
  lemma SwapExample(name: string)
    requires OrdinaryName(name)
    ensures var a, b := PROTECTED_LABELS[0], PROTECTED_LABELS[1];
            var before, after := Namespace(name, map[a := ""]), Namespace(name, map[b := "true"]);
            && Unprivileged(CustomerUpdate(before, after)) && Authorized(CustomerUpdate(before, after)) == Allowed
            && Restrict(before.labels, PROTECTED_LABELS) == map[a := ""]
            && Restrict(after.labels, PROTECTED_LABELS) == map[b := "true"]
  {
    ProtectedLabelsDistinct();
    hide Authorized, Unprivileged, OrdinaryName;
    var a, b := PROTECTED_LABELS[0], PROTECTED_LABELS[1];
    var before, after := Namespace(name, map[a := ""]), Namespace(name, map[b := "true"]);
    assert a in PROTECTED_LABELS && b in PROTECTED_LABELS && a != b;
    assert Restrict(before.labels, PROTECTED_LABELS) == before.labels;
    assert Restrict(after.labels, PROTECTED_LABELS) == after.labels;
    UnchangedExactly(before.labels, after.labels, PROTECTED_LABELS);
    assert before.labels.Keys == {a} && after.labels.Keys == {b};
    CustomerUpdateAdmitted(before, after);
  }

  lemma OnlyOrdinaryNamesAreUpdated(states: seq<Namespace>, run: seq<NsRequest>)
    requires AdmittedRun(states, run) && AllUnprivileged(run) && run != []
    ensures OrdinaryName(states[0].name)
  {
    assert Unprivileged(run[0]) && Authorized(run[0]) == Allowed;
    AdmissionExactly(run[0]);
    StandingExactly(run[0]);
    hide Authorized, Unprivileged, StandingPermission, OrdinaryName, LabelsPermitted;
  }

  /** The protected labels of an object survive every run of admitted unprivileged updates exactly when
      the object is not swappable, or its name keeps unprivileged updates away altogether. */
  lemma FrozenOverRunsExactly(start: Namespace)
    ensures (forall states: seq<Namespace>, run: seq<NsRequest> ::
               AdmittedRun(states, run) && AllUnprivileged(run) && states[0] == start ==>
               Restrict(states[|run|].labels, PROTECTED_LABELS) == Restrict(start.labels, PROTECTED_LABELS))
            <==> !(Swappable(start.labels, PROTECTED_LABELS) && OrdinaryName(start.name))
  {
    hide Authorized, Unprivileged, OrdinaryName, Swappable, Restrict;
    if Swappable(start.labels, PROTECTED_LABELS) && OrdinaryName(start.name) {
      var next := SwapAdmitted(start);
      var states, run := [start, next], [CustomerUpdate(start, next)];
      assert AdmittedRun(states, run) && AllUnprivileged(run) && states[0] == start && states[|run|] == next;
    } else {
      forall states: seq<Namespace>, run: seq<NsRequest>
        | AdmittedRun(states, run) && AllUnprivileged(run) && states[0] == start
        ensures Restrict(states[|run|].labels, PROTECTED_LABELS) == Restrict(start.labels, PROTECTED_LABELS)
      {
        if run != [] { OnlyOrdinaryNamesAreUpdated(states, run); }
        if !Swappable(start.labels, PROTECTED_LABELS) { RunFreezesLabels(states, run); }
      }
    }
  }

  /** A namespace that an unprivileged request created never carries a protected label, whatever
      unprivileged updates are admitted afterwards. */
  lemma CreatedNamespaceStaysUnlabelled(create: NsRequest, states: seq<Namespace>, run: seq<NsRequest>)
    requires AdmittedRun(states, run) && AllUnprivileged(run)
    requires create.operation == Create && create.newObject == Decoded(states[0])
    requires Unprivileged(create) && Authorized(create) == Allowed
    ensures Restrict(states[|run|].labels, PROTECTED_LABELS) == map[]
  {
    AdmissionExactly(create);
    StandingExactly(create);
    hide Authorized, Unprivileged, StandingPermission, OrdinaryName;
    var labels := states[0].labels;
    assert Restrict(labels, PROTECTED_LABELS) == map[];
    assert !Swappable(labels, PROTECTED_LABELS) by {
      forall k | k in PROTECTED_LABELS ensures k !in labels { assert k !in Restrict(labels, PROTECTED_LABELS); }
    }
    RunFreezesLabels(states, run);
  }
}
