/** pkg/webhooks/networkoperator/networkoperator.go: the migration block of the Network operator. */
module NetworkOperator {
  import opened Prelude
  import opened Admission

  /** An optional part is a nil-able pointer in the source. The type behind the two MTU parts is not
      part of this model: `M` is arbitrary, and Go's comparison of two such values is a parameter. */
  datatype Mtu<+M> = Mtu(network: Option<M>, machine: Option<M>)

  datatype Migration<+F, +M> = Migration(networkType: string, mode: string, features: Option<F>, mtu: Option<Mtu<M>>)

  datatype Network<+F, +M> = Network(migration: Option<Migration<F, M>>, other: string)

  const ALLOWED_USERS: seq<string> := [
    "backplane-cluster-admin",
    "system:serviceaccount:openshift-network-operator:cluster-network-operator",
    "system:serviceaccount:openshift-managed-upgrade-operator:managed-upgrade-operator"]

  const SRE_ADMIN_GROUPS: seq<string> := ["system:serviceaccounts:openshift-backplane-srep"]

  // ---------------------------------------------------------------- change detection

  /** One nil-able MTU part: a change of presence, or two values that do not compare equal. */
  predicate PartChanged<M>(same: (M, M) -> bool, a: Option<M>, b: Option<M>) {
    a.Some? != b.Some? || (a.Some? && b.Some? && !same(a.value, b.value))
  }

  predicate HasCriticalChanges<F(==), M>(same: (M, M) -> bool, before: Network<F, M>, after: Network<F, M>) {
    var o, n := before.migration, after.migration;
    if o.None? && n.Some? then true
    else if o.Some? && n.None? then true
    else if o.None? && n.None? then false
    else if o.value.networkType != n.value.networkType then true
    else if o.value.mode != n.value.mode then true
    else if o.value.features.None? != n.value.features.None? then true
    else if o.value.features.Some? && n.value.features.Some? && o.value.features.value != n.value.features.value then true
    else if o.value.mtu.None? != n.value.mtu.None? then true
    else if o.value.mtu.Some? && n.value.mtu.Some? then
      || PartChanged(same, o.value.mtu.value.network, n.value.mtu.value.network)
      || PartChanged(same, o.value.mtu.value.machine, n.value.mtu.value.machine)
    else false
  }

  /** The comparison never calls two different values equal, as holds of Go's `!=` whether the values
      are compared field by field or by the addresses in their fields. */
  ghost predicate Sound<M(!new)>(same: (M, M) -> bool) {
    forall a, b :: same(a, b) ==> a == b
  }

  predicate PartSelfSame<M>(same: (M, M) -> bool, part: Option<M>) {
    part.Some? ==> same(part.value, part.value)
  }

  /** The MTU parts of the block, as far as present, compare equal to themselves. Comparison by address
      can fail here, when a value is decoded twice. */
  predicate SelfSame<F, M>(same: (M, M) -> bool, migration: Option<Migration<F, M>>) {
    migration.Some? && migration.value.mtu.Some? ==>
      && PartSelfSame(same, migration.value.mtu.value.network)
      && PartSelfSame(same, migration.value.mtu.value.machine)
  }

  /** No change is reported exactly when the blocks are equal and their MTU parts compare equal to
      themselves; so an unreported change is no change, for every sound comparison. */
  lemma UnreportedExactly<F, M(!new)>(same: (M, M) -> bool, before: Network<F, M>, after: Network<F, M>)
    requires Sound(same)
    ensures !HasCriticalChanges(same, before, after) <==>
            before.migration == after.migration && SelfSame(same, before.migration)
  {
  }

  // ---------------------------------------------------------------- decision

  /** isAllowedUserGroup. A request embeds its AdmissionRequest, so both places the source reads the
      user from are the same, and its fallbacks ask the same question twice. */
  predicate IsAllowedUserGroup<T>(req: Request<T>) {
    req.username in ALLOWED_USERS || exists g :: g in SRE_ADMIN_GROUPS && g in req.groups
  }

  function Authorized<F(==), M>(same: (M, M) -> bool, req: Request<Network<F, M>>): Response {
    if req.operation != Update then Allowed
    else if !req.newObject.Decoded? || !req.oldObject.Decoded? then Errored(400)
    else if !HasCriticalChanges(same, req.oldObject.value, req.newObject.value) then Allowed
    else if IsAllowedUserGroup(req) then Allowed
    else Denied
  }

  /** An update is admitted exactly when it keeps the migration block, as far as the comparison can
      tell, or comes from an allowed identity; creations and deletions are always admitted. */
  lemma AdmissionExactly<F, M(!new)>(same: (M, M) -> bool, req: Request<Network<F, M>>)
    requires Sound(same)
    ensures Authorized(same, req) == Allowed <==>
            || req.operation != Update
            || (&& req.oldObject.Decoded? && req.newObject.Decoded?
                && var before, after := req.oldObject.value.migration, req.newObject.value.migration;
                   (before == after && SelfSame(same, before)) || NamedIdentity(req))
  {
    AllowedExactly(req);
    if req.oldObject.Decoded? && req.newObject.Decoded? {
      UnreportedExactly(same, req.oldObject.value, req.newObject.value);
    }
  }

  /** The identities that may change the block. */
  predicate NamedIdentity<T>(req: Request<T>) {
    || req.username == "backplane-cluster-admin"
    || req.username == "system:serviceaccount:openshift-network-operator:cluster-network-operator"
    || req.username == "system:serviceaccount:openshift-managed-upgrade-operator:managed-upgrade-operator"
    || "system:serviceaccounts:openshift-backplane-srep" in req.groups
  }

  lemma AllowedExactly<T>(req: Request<T>)
    ensures IsAllowedUserGroup(req) <==> NamedIdentity(req)
  {
    assert SRE_ADMIN_GROUPS[0] == "system:serviceaccounts:openshift-backplane-srep";
    assert ALLOWED_USERS[0] == "backplane-cluster-admin";
    assert ALLOWED_USERS[1] == "system:serviceaccount:openshift-network-operator:cluster-network-operator";
    assert ALLOWED_USERS[2] == "system:serviceaccount:openshift-managed-upgrade-operator:managed-upgrade-operator";
    assert forall u :: u in ALLOWED_USERS ==> u == ALLOWED_USERS[0] || u == ALLOWED_USERS[1] || u == ALLOWED_USERS[2];
  }

  /** The response to every request, by request fields: an update that changes the block is allowed exactly
      for the three named users and the SRE group and denied to all others, such as "system:admin"
      outside that group; one that keeps it is denied only when an MTU part does not compare equal to
      itself; an update that does not decode is an error; everything else is allowed. */
  lemma ResponseExactly<F, M(!new)>(same: (M, M) -> bool, req: Request<Network<F, M>>)
    requires Sound(same)
    ensures req.operation != Update ==> Authorized(same, req) == Allowed
    ensures req.operation == Update && !(req.oldObject.Decoded? && req.newObject.Decoded?) ==>
              Authorized(same, req) == Errored(400)
    ensures req.operation == Update && req.oldObject.Decoded? && req.newObject.Decoded? ==>
              var before, after := req.oldObject.value.migration, req.newObject.value.migration;
              Authorized(same, req) ==
              if before == after && SelfSame(same, before) then Allowed
              else if NamedIdentity(req) then Allowed else Denied
  {
    AllowedExactly(req);
    hide IsAllowedUserGroup, NamedIdentity, HasCriticalChanges, SelfSame;
    if req.oldObject.Decoded? && req.newObject.Decoded? {
      UnreportedExactly(same, req.oldObject.value, req.newObject.value);
    }
  }

  /** Joining groups never loses an admission, and only the set of groups matters. */
  lemma GroupsOnlyHelp<F, M>(same: (M, M) -> bool, req: Request<Network<F, M>>, groups: seq<string>)
    requires MoreGroups(req.groups, groups)
    ensures Authorized(same, req) == Allowed ==> Authorized(same, WithGroups(req, groups)) == Allowed
    ensures MoreGroups(groups, req.groups) ==> Authorized(same, WithGroups(req, groups)) == Authorized(same, req)
  {
  }

  // ---------------------------------------------------------------- runs

  /** A run of admitted updates of the Network object, by any mix of identities: `states[i]` is stored
      before request `i` and `states[i + 1]` after it. */
  predicate AdmittedRun<F(==), M(==)>(same: (M, M) -> bool, states: seq<Network<F, M>>, run: seq<Request<Network<F, M>>>) {
    && |states| == |run| + 1
    && forall i :: 0 <= i < |run| ==>
         && run[i].operation == Update
         && run[i].oldObject == Decoded(states[i]) && run[i].newObject == Decoded(states[i + 1])
         && Authorized(same, run[i]) == Allowed
  }

  /** The position just after the last request of an allowed identity among the first `n`, or 0. */
  function LastAllowed<T>(run: seq<Request<T>>, n: nat): (k: nat)
    requires n <= |run|
    ensures k <= n
    ensures k > 0 ==> NamedIdentity(run[k - 1])
    ensures forall i :: k <= i < n ==> !NamedIdentity(run[i])
  {
    if n == 0 then 0 else if NamedIdentity(run[n - 1]) then n else LastAllowed(run, n - 1)
  }

  /** At every point of every run, the migration block is the one stored by the last allowed identity,
      or the initial one when there was none: nobody else ever changes it. */
  lemma {:induction false} MigrationHasAllowedAuthor<F, M(!new)>(same: (M, M) -> bool, states: seq<Network<F, M>>,
                                                                 run: seq<Request<Network<F, M>>>, n: nat)
    requires Sound(same) && AdmittedRun(same, states, run) && n <= |run|
    ensures states[n].migration == states[LastAllowed(run, n)].migration
  {
    if n > 0 && !NamedIdentity(run[n - 1]) {
      AllowedExactly(run[n - 1]);
      assert Authorized(same, run[n - 1]) == Allowed;
      UnreportedExactly(same, states[n - 1], states[n]);
      MigrationHasAllowedAuthor(same, states, run, n - 1);
    }
  }

  /** In particular, without allowed identities the migration block never moves. */
  lemma MigrationFrozen<F, M(!new)>(same: (M, M) -> bool, states: seq<Network<F, M>>,
                                    run: seq<Request<Network<F, M>>>, n: nat)
    requires Sound(same) && AdmittedRun(same, states, run) && n <= |run|
    requires forall i :: 0 <= i < |run| ==> !NamedIdentity(run[i])
    ensures states[n].migration == states[0].migration
  {
    MigrationHasAllowedAuthor(same, states, run, n);
  }
}
