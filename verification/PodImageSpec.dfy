/** pkg/webhooks/podimagespec/podimagespec.go: rewriting internal-registry images when the registry is gone. */
module PodImageSpec {
  import opened Prelude
  import opened ImageReference
  import opened Admission

  /** A container: its image and everything else about it. */
  datatype Container = Container(image: string, other: string)

  /** A pod as a value: its containers, its init containers and everything else. */
  datatype Pod = Pod(containers: seq<Container>, initContainers: seq<Container>, other: string)

  /** ImageStreamTags by namespace and `image:tag`, with the image each one stands for. */
  type TagStore = map<(string, string), string>

  // ---------------------------------------------------------------- lookup and gate

  function KeyOf(ref: ImageRef): (string, string) { (ref.ns, ref.image + ":" + ref.tag) }

  /** lookupImageStreamTagSpec: images outside the internal registry stay; a missing tag is an error. */
  function LookupImage(store: TagStore, image: string): Option<string> {
    var ref := CheckImage(image);
    if ref.None? then Some(image)
    else
      var key := KeyOf(ref.value);
      if key in store then Some(store[key]) else None
  }

  predicate InOpenShift(image: string) {
    CheckImage(image).Some? && CheckImage(image).value.ns == "openshift"
  }

  predicate AnyInOpenShift(cs: seq<Container>) {
    exists i :: 0 <= i < |cs| && InOpenShift(cs[i].image)
  }

  predicate Gate(pod: Pod) { AnyInOpenShift(pod.containers) || AnyInOpenShift(pod.initContainers) }

  // ---------------------------------------------------------------- the mutated pod

  predicate AllFound(store: TagStore, cs: seq<Container>) {
    forall i :: 0 <= i < |cs| ==> LookupImage(store, cs[i].image).Some?
  }

  function Rewritten(store: TagStore, cs: seq<Container>): seq<Container>
    requires AllFound(store, cs)
  {
    seq(|cs|, i requires 0 <= i < |cs| => cs[i].(image := LookupImage(store, cs[i].image).value))
  }

  function Mutated(store: TagStore, pod: Pod): Option<Pod> {
    if AllFound(store, pod.containers) && AllFound(store, pod.initContainers) then
      Some(pod.(containers := Rewritten(store, pod.containers), initContainers := Rewritten(store, pod.initContainers)))
    else None
  }

  /** A pod in memory; the hook works on such objects. */
  class PodObject {
    var containers: array<Container>
    var initContainers: array<Container>
    var other: string

    constructor (containers: array<Container>, initContainers: array<Container>, other: string)
      ensures this.containers == containers && this.initContainers == initContainers && this.other == other
    {
      this.containers, this.initContainers, this.other := containers, initContainers, other;
    }

    ghost function View(): Pod
      reads this, containers, initContainers
    {
      Pod(containers[..], initContainers[..], other)
    }

    method DeepCopy() returns (copy: PodObject)
      ensures fresh(copy) && fresh(copy.containers) && fresh(copy.initContainers)
      ensures copy.containers != copy.initContainers
      ensures copy.View() == View()
    {
      var cs := CopyArray(containers);
      var inits := CopyArray(initContainers);
      copy := new PodObject(cs, inits, other);
    }
  }

  method CopyArray(a: array<Container>) returns (b: array<Container>)
    ensures fresh(b) && b[..] == a[..]
  {
    b := new Container[a.Length](i requires 0 <= i < a.Length reads a => a[i]);
  }

  /** The two loops of mutatePod: the images of `target` are overwritten one by one. */
  method RewriteImages(source: array<Container>, target: array<Container>, store: TagStore) returns (ok: bool)
    requires source != target && target[..] == source[..]
    modifies target
    ensures ok == AllFound(store, source[..])
    ensures ok ==> target[..] == Rewritten(store, source[..])
  {
    for i := 0 to source.Length
      invariant forall j :: 0 <= j < i ==> LookupImage(store, source[j].image).Some?
      invariant forall j :: 0 <= j < i ==> target[j] == source[j].(image := LookupImage(store, source[j].image).value)
      invariant forall j :: i <= j < source.Length ==> target[j] == source[j]
    {
      var uri := LookupImage(store, source[i].image);
      if uri.None? {
        assert source[..][i] == source[i];
        return false;
      }
      target[i] := target[i].(image := uri.value);
    }
    ok := true;
  }

  /** mutatePod: works on a copy, so the given pod keeps its value whatever happens. */
  method MutatePod(pod: PodObject, store: TagStore) returns (result: Option<Pod>)
    ensures result == Mutated(store, pod.View())
  {
    var mutated := pod.DeepCopy();
    var ok := RewriteImages(pod.containers, mutated.containers, store);
    if !ok { return None; }
    ok := RewriteImages(pod.initContainers, mutated.initContainers, store);
    if !ok { return None; }
    result := Some(Pod(mutated.containers[..], mutated.initContainers[..], mutated.other));
  }

  method ScanImages(cs: array<Container>, before: bool) returns (podMatch: bool)
    ensures podMatch == (before || AnyInOpenShift(cs[..]))
  {
    podMatch := before;
    for i := 0 to cs.Length
      invariant podMatch == (before || AnyInOpenShift(cs[..i]))
    {
      assert cs[..i + 1] == cs[..i] + [cs[i]];
      var ref := CheckImage(cs[i].image);
      if ref.Some? && ref.value.ns == "openshift" {
        assert InOpenShift(cs[..i + 1][i].image);
        podMatch := true;
      }
      AnyInOpenShiftSnoc(cs[..i], cs[i]);
    }
    assert cs[..cs.Length] == cs[..];
  }

  lemma AnyInOpenShiftSnoc(cs: seq<Container>, c: Container)
    ensures AnyInOpenShift(cs + [c]) <==> AnyInOpenShift(cs) || InOpenShift(c.image)
  {
    var all := cs + [c];
    if i :| 0 <= i < |cs| && InOpenShift(cs[i].image) { assert InOpenShift(all[i].image); }
    if InOpenShift(c.image) { assert InOpenShift(all[|cs|].image); }
  }

  /** podContainsContainerRegexMatch */
  method PodContainsContainerRegexMatch(pod: PodObject) returns (podMatch: bool)
    ensures podMatch == Gate(pod.View())
  {
    podMatch := ScanImages(pod.containers, false);
    podMatch := ScanImages(pod.initContainers, podMatch);
  }

  // ---------------------------------------------------------------- what the mutation does

  /** Some image of the list is an internal reference whose ImageStreamTag the store does not hold. */
  predicate Unresolved(store: TagStore, cs: seq<Container>) {
    exists i :: 0 <= i < |cs| &&
      var ref := CheckImage(cs[i].image);
      ref.Some? && (ref.value.ns, ref.value.image + ":" + ref.value.tag) !in store
  }

  /** There is an output exactly when every internal reference resolves; it has the same containers in
      the same places, and only images that are internal references differ, by what the store says. */
  lemma MutationShape(store: TagStore, pod: Pod)
    ensures Mutated(store, pod).None? <==> Unresolved(store, pod.containers) || Unresolved(store, pod.initContainers)
    ensures Mutated(store, pod).Some? ==>
              var out := Mutated(store, pod).value;
              out.other == pod.other && SameButImages(store, pod.containers, out.containers)
              && SameButImages(store, pod.initContainers, out.initContainers)
  {
  }

  predicate SameButImages(store: TagStore, before: seq<Container>, after: seq<Container>) {
    && |after| == |before|
    && forall i :: 0 <= i < |before| ==>
         && after[i].other == before[i].other
         && (CheckImage(before[i].image).None? ==> after[i] == before[i])
         && (CheckImage(before[i].image).Some? ==>
               var ref := CheckImage(before[i].image).value;
               var key := (ref.ns, ref.image + ":" + ref.tag);
               key in store && after[i].image == store[key])
  }

  /** The store gives an internal reference of the openshift namespace for some image of the list. */
  predicate LeadsBack(store: TagStore, cs: seq<Container>)
    requires AllFound(store, cs)
  {
    exists i :: 0 <= i < |cs| && CheckImage(cs[i].image).Some? && InOpenShift(LookupImage(store, cs[i].image).value)
  }

  lemma RewrittenGate(store: TagStore, cs: seq<Container>)
    requires AllFound(store, cs)
    ensures AnyInOpenShift(Rewritten(store, cs)) <==> LeadsBack(store, cs)
  {
    var out := Rewritten(store, cs);
    if i :| 0 <= i < |out| && InOpenShift(out[i].image) {
      assert out[i].image == LookupImage(store, cs[i].image).value;
      assert CheckImage(cs[i].image).Some?;
    }
    if i :| 0 <= i < |cs| && CheckImage(cs[i].image).Some? && InOpenShift(LookupImage(store, cs[i].image).value) {
      assert InOpenShift(out[i].image);
    }
  }

  /** The gate is still open after the mutation exactly when the store led back to it. */
  lemma GateAfterMutation(store: TagStore, pod: Pod)
    requires Mutated(store, pod).Some?
    ensures Gate(Mutated(store, pod).value) <==>
            LeadsBack(store, pod.containers) || LeadsBack(store, pod.initContainers)
  {
    RewrittenGate(store, pod.containers);
    RewrittenGate(store, pod.initContainers);
  }

  /** The store never answers with an internal reference. */
  predicate External(store: TagStore) {
    forall key :: key in store ==> CheckImage(store[key]).None?
  }

  lemma RewrittenExternal(store: TagStore, cs: seq<Container>)
    requires AllFound(store, cs) && External(store)
    ensures forall c :: c in Rewritten(store, cs) ==> CheckImage(c.image).None?
    ensures !AnyInOpenShift(Rewritten(store, cs))
    ensures AllFound(store, Rewritten(store, cs)) && Rewritten(store, Rewritten(store, cs)) == Rewritten(store, cs)
  {
  }

  /** With such a store the mutation closes the gate, leaves no internal reference at all and, applied
      again, changes nothing. */
  lemma MutationSettles(store: TagStore, pod: Pod)
    requires Mutated(store, pod).Some? && External(store)
    ensures var out := Mutated(store, pod).value;
            && !Gate(out)
            && Mutated(store, out) == Some(out)
            && forall c :: c in out.containers + out.initContainers ==> CheckImage(c.image).None?
  {
    RewrittenExternal(store, pod.containers);
    RewrittenExternal(store, pod.initContainers);
  }

  // ---------------------------------------------------------------- the hook

  /** The cluster as a client sees it; `registryManaged` is missing when the registry configuration
      cannot be read. */
  datatype Client = Client(store: TagStore, registryManaged: Option<bool>)

  datatype PodResponse = PodAllowed | PodErrored(code: nat) | PodPatched(pod: Pod)

  function Decide(client: Client, pod: Pod): PodResponse {
    if !Gate(pod) then PodAllowed
    else if client.registryManaged.None? then PodErrored(500)
    else if client.registryManaged.value then PodAllowed
    else
      var mutated := Mutated(client.store, pod);
      if mutated.None? then PodErrored(500) else PodPatched(mutated.value)
  }

  class PodImageSpecWebhook {
    var kubeClient: Option<Client>

    constructor ()
      ensures kubeClient == None
    {
      kubeClient := None;
    }

    /** authorized: a client is made once and kept; `connect` is what making one would give now. */
    method Authorized(pod: Raw<PodObject>, connect: Option<Client>) returns (r: PodResponse)
      modifies this
      ensures kubeClient == if old(kubeClient).Some? then old(kubeClient) else connect
      ensures r == if kubeClient.None? || !pod.Decoded? then PodErrored(400)
                   else Decide(kubeClient.value, pod.value.View())
    {
      if kubeClient.None? {
        kubeClient := connect;
        if kubeClient.None? { return PodErrored(400); }
      }
      if !pod.Decoded? { return PodErrored(400); }
      var matched := PodContainsContainerRegexMatch(pod.value);
      if !matched { return PodAllowed; }
      var managed := kubeClient.value.registryManaged;
      if managed.None? { return PodErrored(500); }
      if managed.value { return PodAllowed; }
      var mutated := MutatePod(pod.value, kubeClient.value.store);
      if mutated.None? { return PodErrored(500); }
      r := PodPatched(mutated.value);
    }
  }

  /** Some image of the list reads as a reference in the openshift namespace. */
  ghost predicate ReadsOpenShift(cs: seq<Container>) {
    exists i, image, tag :: 0 <= i < |cs| && CheckImage(cs[i].image) == Some(ImageRef("openshift", image, tag))
  }

  lemma GateExactly(pod: Pod)
    ensures Gate(pod) <==> ReadsOpenShift(pod.containers) || ReadsOpenShift(pod.initContainers)
  {
    ScanExactly(pod.containers);
    ScanExactly(pod.initContainers);
  }

  lemma ScanExactly(cs: seq<Container>)
    ensures AnyInOpenShift(cs) <==> ReadsOpenShift(cs)
  {
    if i :| 0 <= i < |cs| && InOpenShift(cs[i].image) {
      var ref := CheckImage(cs[i].image).value;
      assert CheckImage(cs[i].image) == Some(ImageRef("openshift", ref.image, ref.tag));
    }
    if i, image, tag :| 0 <= i < |cs| && CheckImage(cs[i].image) == Some(ImageRef("openshift", image, tag)) {
      assert InOpenShift(cs[i].image);
    }
  }

  /** The response for every client and pod: patched exactly when some image reads as an openshift
      reference, the registry is known not to be managed and every internal reference resolves; allowed
      exactly when there is no such image or the registry is managed; else an internal error. */
  lemma DecideExactly(client: Client, pod: Pod)
    ensures var wanted := ReadsOpenShift(pod.containers) || ReadsOpenShift(pod.initContainers);
            var lost := Unresolved(client.store, pod.containers) || Unresolved(client.store, pod.initContainers);
            && (Decide(client, pod).PodPatched? <==> wanted && client.registryManaged == Some(false) && !lost)
            && (Decide(client, pod) == PodAllowed <==> !wanted || client.registryManaged == Some(true))
            && (Decide(client, pod) == PodErrored(500) <==>
                  wanted && (client.registryManaged == None || (client.registryManaged == Some(false) && lost)))
            && (Decide(client, pod).PodPatched? ==>
                  && Decide(client, pod).pod.other == pod.other
                  && SameButImages(client.store, pod.containers, Decide(client, pod).pod.containers)
                  && SameButImages(client.store, pod.initContainers, Decide(client, pod).pod.initContainers))
  {
    GateExactly(pod);
    MutationShape(client.store, pod);
    hide Gate, Mutated, ReadsOpenShift, Unresolved, SameButImages;
  }

  /** A patched pod that comes back to a hook with the same client is allowed as it is exactly when the
      store led none of its images back to the openshift namespace. */
  lemma PatchedPodIsAllowed(client: Client, pod: Pod)
    requires Decide(client, pod).PodPatched?
    ensures Decide(client, Decide(client, pod).pod) == PodAllowed <==>
            !LeadsBack(client.store, pod.containers) && !LeadsBack(client.store, pod.initContainers)
  {
    GateAfterMutation(client.store, pod);
    hide Gate, LeadsBack;
  }
}
