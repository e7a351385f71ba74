/** pkg/webhooks/regularuser/common/regularuser.go: the ordered decision chain for customer requests. */
module RegularUser {
  import opened Prelude
  import opened Text
  import opened Regex
  import opened Patterns
  import opened Admission

  /** What the chain reads of a decoded object. */
  datatype Meta = Meta(name: string, namespace: string)

  type UserRequest = Request<Meta>

  const ADMIN_GROUPS: seq<string> := ["system:serviceaccounts:openshift-backplane-srep"]
  const ADMIN_USERS: seq<string> := ["backplane-cluster-admin"]
  const SERVICE_ACCOUNT: string := "system:serviceaccount:"
  const CLUSTER_VERSION_USERS: seq<string> := [
    SERVICE_ACCOUNT + "openshift-managed-upgrade-operator:managed-upgrade-operator",
    SERVICE_ACCOUNT + "openshift-cluster-version:default",
    SERVICE_ACCOUNT + "openshift-cluster-version:cluster-version-operator"]
  const MACHINE_CONFIG_USERS: seq<string> := [
    SERVICE_ACCOUNT + "openshift-cluster-node-tuning-operator:cluster-node-tuning-operator",
    SERVICE_ACCOUNT + "openshift-machine-config-operator:machine-config-controller",
    "system:admin"]
  const CEE_GROUP: string := "system:serviceaccounts:openshift-backplane-cee"
  const MACHINE_CONFIG_GROUP: string := "machineconfiguration.openshift.io"

  // ---------------------------------------------------------------- helpers

  predicate IsMustGatherAuthorized(req: UserRequest) { CEE_GROUP in req.groups }

  predicate IsCustomDomainAuthorized(req: UserRequest) {
    "cluster-admins" in req.groups || "dedicated-admins" in req.groups
  }

  predicate IsNetNamespaceValid(req: UserRequest) {
    req.newObject.Decoded? &&
    !(IsMatch(BAD_NAMESPACE_RE, req.newObject.value.name) || IsPrivilegedNamespace(req.newObject.value.name))
  }

  predicate IsNetNamespaceAuthorized(req: UserRequest) {
    ("cluster-admins" in req.groups || "dedicated-admins" in req.groups) && IsNetNamespaceValid(req)
  }

  predicate InAdminGroup(req: UserRequest) {
    exists g :: g in req.groups && g in ADMIN_GROUPS
  }

  predicate IsClusterVersionAuthorized(req: UserRequest) {
    if req.username in CLUSTER_VERSION_USERS then true
    else if req.username in ADMIN_USERS then true
    else if InAdminGroup(req) then true
    else HasPrefix(req.username, "system:") && !HasPrefix(req.username, SERVICE_ACCOUNT)
  }

  predicate IsMachineConfigAuthorized(req: UserRequest) {
    if "cluster-admins" in req.groups then true
    else if req.username in ADMIN_USERS then true
    else req.username in MACHINE_CONFIG_USERS
  }

  predicate ShouldAllowConfigMapChange(req: UserRequest) {
    var target := if req.operation == Delete then req.oldObject else req.newObject;
    target.Decoded? && (target.value.name != "user-ca-bundle" || target.value.namespace != "openshift-config")
  }

  // ---------------------------------------------------------------- chain

  /** The switch over resource kinds: a verdict, or nothing when the chain goes on. */
  function KindVerdict(req: UserRequest): Option<Response> {
    if RequestMatchesGroupKind(req, "MustGather", "managed.openshift.io") then
      if IsMustGatherAuthorized(req) then Some(Allowed) else None
    else if RequestMatchesGroupKind(req, "CustomDomain", "managed.openshift.io") then
      if IsCustomDomainAuthorized(req) then Some(Allowed) else None
    else if RequestMatchesGroupKind(req, "ClusterVersion", "config.openshift.io") then
      if IsClusterVersionAuthorized(req) then Some(Allowed) else Some(Denied)
    else if RequestMatchesGroupKind(req, "NetNamespace", "network.openshift.io") then
      if IsNetNamespaceAuthorized(req) then Some(Allowed) else None
    else None
  }

  function Authorized(req: UserRequest): Response {
    if req.username == "system:unauthenticated" then Denied
    else if req.kindGroup == MACHINE_CONFIG_GROUP then
      if IsMachineConfigAuthorized(req) then Allowed else Denied
    else if HasPrefix(req.username, "kube:") then Allowed
    else
      var verdict := KindVerdict(req);
      if verdict.Some? then verdict.value
      else if HasPrefix(req.username, "system:") then Allowed
      else if req.username in ADMIN_USERS then Allowed
      else if InAdminGroup(req) then Allowed
      else if req.kind == "ConfigMap" && ShouldAllowConfigMapChange(req) then Allowed
      else Denied
  }

  // ---------------------------------------------------------------- properties

  /** More groups can only turn a verdict of the switch into an admission. */
  lemma KindVerdictMonotone(req: UserRequest, groups: seq<string>)
    requires MoreGroups(req.groups, groups)
    ensures var verdict, more := KindVerdict(req), KindVerdict(WithGroups(req, groups));
            more == verdict || more == Some(Allowed)
  {
    hide IsPrivilegedNamespace, IsMatch;
    var more := WithGroups(req, groups);
    assert InAdminGroup(req) ==> InAdminGroup(more);
    assert IsNetNamespaceValid(more) == IsNetNamespaceValid(req);
  }

  /** Joining more groups never loses an admission, whichever branch gave it. */
  lemma MoreGroupsKeepAdmission(req: UserRequest, groups: seq<string>)
    requires MoreGroups(req.groups, groups) && Authorized(req) == Allowed
    ensures Authorized(WithGroups(req, groups)) == Allowed
  {
    KindVerdictMonotone(req, groups);
    hide KindVerdict;
    assert InAdminGroup(req) ==> InAdminGroup(WithGroups(req, groups));
  }

  /** Only the set of groups matters. */
  lemma GroupsAreASet(req: UserRequest, groups: seq<string>)
    requires MoreGroups(req.groups, groups) && MoreGroups(groups, req.groups)
    ensures Authorized(WithGroups(req, groups)) == Authorized(req)
  {
    var other := WithGroups(req, groups);
    hide IsPrivilegedNamespace, IsMatch;
    AllowsOrDenies(req);
    AllowsOrDenies(other);
    if Authorized(req) == Allowed { MoreGroupsKeepAdmission(req, groups); }
    if Authorized(other) == Allowed {
      assert WithGroups(other, req.groups) == req;
      MoreGroupsKeepAdmission(other, req.groups);
    }
  }

  /** The chain only ever allows or denies. */
  lemma AllowsOrDenies(req: UserRequest)
    ensures Authorized(req) == Allowed || Authorized(req) == Denied
  {
  }

  /** A customer: a named user that is neither a platform identity nor an admin. */
  predicate Customer(req: UserRequest) {
    && !HasPrefix(req.username, "system:") && !HasPrefix(req.username, "kube:")
    && req.username != "backplane-cluster-admin"
    && "system:serviceaccounts:openshift-backplane-srep" !in req.groups
  }

  /** The object a ConfigMap request is judged by. */
  function JudgedObject(req: UserRequest): Raw<Meta> {
    match req.operation
    case Delete => req.oldObject
    case Create => req.newObject
    case Update => req.newObject
    case Connect => req.newObject
  }

  /** It decodes, and is not the user-ca-bundle of openshift-config. */
  predicate EditableConfigMap(req: UserRequest) {
    JudgedObject(req).Decoded? && JudgedObject(req).value != Meta("user-ca-bundle", "openshift-config")
  }

  /** The doors that are open to a customer, one per resource. */
  predicate CustomerDoor(req: UserRequest) {
    if req.kindGroup == "machineconfiguration.openshift.io" then "cluster-admins" in req.groups
    else
      || (req.kind == "ConfigMap" && EditableConfigMap(req))
      || (req.kind == "MustGather" && req.kindGroup == "managed.openshift.io" &&
          "system:serviceaccounts:openshift-backplane-cee" in req.groups)
      || (req.kind == "CustomDomain" && req.kindGroup == "managed.openshift.io" &&
          ("cluster-admins" in req.groups || "dedicated-admins" in req.groups))
      || (req.kind == "NetNamespace" && req.kindGroup == "network.openshift.io" &&
          ("cluster-admins" in req.groups || "dedicated-admins" in req.groups) && CustomerNetNamespace(req))
  }

  /** A decoded NetNamespace whose name is neither harmful nor privileged. */
  predicate CustomerNetNamespace(req: UserRequest) {
    req.newObject.Decoded? &&
    var name := req.newObject.value.name;
    && name !in ["com", "io", "in", "default", "openshift"] && name !in MANAGED_NAMES
    && !HasPrefix(name, "kube-") && !HasPrefix(name, "redhat-")
  }

  lemma NetNamespaceMeaning(req: UserRequest)
    ensures IsNetNamespaceValid(req) <==> CustomerNetNamespace(req)
  {
    if req.newObject.Decoded? {
      BadNamespaceMeaning(req.newObject.value.name);
      PrivilegedNamespaceMeaning(req.newObject.value.name);
    }
  }

  lemma AdminsExactly(req: UserRequest)
    ensures InAdminGroup(req) <==> "system:serviceaccounts:openshift-backplane-srep" in req.groups
    ensures req.username in ADMIN_USERS <==> req.username == "backplane-cluster-admin"
  {
    assert ADMIN_GROUPS[0] == "system:serviceaccounts:openshift-backplane-srep" && ADMIN_USERS[0] == "backplane-cluster-admin";
  }

  lemma CustomerIsNoServiceUser(req: UserRequest)
    requires Customer(req)
    ensures req.username !in CLUSTER_VERSION_USERS && req.username !in MACHINE_CONFIG_USERS
    ensures req.username != "system:unauthenticated"
  {
  }

  /** For a customer the whole ordered chain is the disjunction of those doors; in particular a
      ClusterVersion is never theirs to change. */
  lemma CustomerDecision(req: UserRequest)
    requires Customer(req)
    ensures Authorized(req) == if CustomerDoor(req) then Allowed else Denied
  {
    CustomerIsNoServiceUser(req);
    AdminsExactly(req);
    NetNamespaceMeaning(req);
    AllowsOrDenies(req);
    assert ShouldAllowConfigMapChange(req) <==> EditableConfigMap(req);
    hide IsNetNamespaceValid, CustomerNetNamespace, ShouldAllowConfigMapChange, EditableConfigMap, InAdminGroup;
    hide IsPrivilegedNamespace, IsMatch;
  }

  /** A customer's ConfigMap request is denied exactly when the object it is judged by does not decode or is
      the user-ca-bundle of openshift-config; a deletion is judged by the old object. */
  lemma ConfigMapDecision(req: UserRequest)
    requires Customer(req) && req.kind == "ConfigMap" && req.kindGroup != "machineconfiguration.openshift.io"
    ensures var judged := if req.operation == Delete then req.oldObject else req.newObject;
            Authorized(req) == Denied <==>
            !judged.Decoded? || (judged.value.name == "user-ca-bundle" && judged.value.namespace == "openshift-config")
  {
    hide Authorized;
    CustomerDecision(req);
  }

  /** The users who may change machine configurations without being in the cluster-admins group. */
  predicate MachineConfigUser(username: string) {
    || username == "backplane-cluster-admin" || username == "system:admin"
    || username == "system:serviceaccount:" + "openshift-cluster-node-tuning-operator:cluster-node-tuning-operator"
    || username == "system:serviceaccount:" + "openshift-machine-config-operator:machine-config-controller"
  }

  /** The service accounts that may change a ClusterVersion. */
  predicate ClusterVersionAccount(username: string) {
    || username == "system:serviceaccount:" + "openshift-managed-upgrade-operator:managed-upgrade-operator"
    || username == "system:serviceaccount:" + "openshift-cluster-version:default"
    || username == "system:serviceaccount:" + "openshift-cluster-version:cluster-version-operator"
  }

  lemma UserListsExactly(u: string)
    ensures u in ADMIN_USERS || u in MACHINE_CONFIG_USERS <==> MachineConfigUser(u)
    ensures u in CLUSTER_VERSION_USERS <==> ClusterVersionAccount(u)
  {
    var cv, mc := CLUSTER_VERSION_USERS, MACHINE_CONFIG_USERS;
    assert cv[0] == "system:serviceaccount:" + "openshift-managed-upgrade-operator:managed-upgrade-operator";
    assert cv[1] == "system:serviceaccount:" + "openshift-cluster-version:default";
    assert cv[2] == "system:serviceaccount:" + "openshift-cluster-version:cluster-version-operator";
    assert mc[0] == "system:serviceaccount:" + "openshift-cluster-node-tuning-operator:cluster-node-tuning-operator";
    assert mc[1] == "system:serviceaccount:" + "openshift-machine-config-operator:machine-config-controller";
    assert u in cv <==> u == cv[0] || u == cv[1] || u == cv[2];
    assert u in mc <==> u == mc[0] || u == mc[1] || u == mc[2];
  }

  /** A platform identity or admin is refused in three cases only: unauthenticated, a machine
      configuration without one of its permits, or a ClusterVersion from a service account that is
      neither listed nor in the admin group. */
  lemma PlatformRefusals(req: UserRequest)
    requires !Customer(req)
    ensures Authorized(req) ==
            if || req.username == "system:unauthenticated"
               || (req.kindGroup == "machineconfiguration.openshift.io" && "cluster-admins" !in req.groups
                   && !MachineConfigUser(req.username))
               || (req.kind == "ClusterVersion" && req.kindGroup == "config.openshift.io"
                   && HasPrefix(req.username, "system:serviceaccount:") && !ClusterVersionAccount(req.username)
                   && "system:serviceaccounts:openshift-backplane-srep" !in req.groups)
            then Denied else Allowed
  {
    hide IsPrivilegedNamespace, IsMatch, IsNetNamespaceValid, ShouldAllowConfigMapChange;
    hide InAdminGroup, MachineConfigUser, ClusterVersionAccount, HasPrefix;
    AdminsExactly(req);
    UserListsExactly(req.username);
    ServiceAccountNames(req.username);
  }

  lemma ServiceAccountNames(u: string)
    ensures HasPrefix(u, "system:serviceaccount:") ==>
              HasPrefix(u, "system:") && !HasPrefix(u, "kube:") && u != "backplane-cluster-admin"
  {
    if HasPrefix(u, "system:serviceaccount:") {
      assert u[..22][..7] == u[..7] == "system:";
      assert u[..22][0] == 's';
    }
  }
}
