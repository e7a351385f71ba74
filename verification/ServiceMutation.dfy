/** pkg/webhooks/service/service.go: the compliance tag of LoadBalancer services. Everything is stated
    for an arbitrary annotation key; the hook uses `KEY`. */
module ServiceMutation {
  import opened Prelude
  import opened Text
  import opened JsonPatch

  const KEY: string := "service.beta.kubernetes.io/aws-load-balancer-additional-resource-tags"
  const PREFIX: string := "red-hat-managed="
  const REQUIRED: string := PREFIX + "true"
  const LOAD_BALANCER: string := "LoadBalancer"

  /** `None` is Go's nil map, which differs from the empty map. */
  type Annotations = Option<map<string, string>>

  datatype Service = Service(serviceType: string, annotations: Annotations)

  // ---------------------------------------------------------------- tags

  function ReadAnnotation(annotations: Annotations, key: string): string {
    if annotations.Some? && key in annotations.value then annotations.value[key] else ""
  }

  predicate HasRedHatManagedTag(key: string, annotations: Annotations) {
    REQUIRED in Split(ReadAnnotation(annotations, key), ',')
  }

  predicate Conflicting(tag: string) { HasPrefix(tag, PREFIX) }

  predicate Compatible(tag: string) { !HasPrefix(tag, PREFIX) }

  /** The rebuilt annotation: the required tag, then the old tags that do not conflict with it. */
  function NewValue(value: string): string {
    Join([REQUIRED] + Filter(Compatible, Split(value, ',')), ',')
  }

  lemma RequiredTag()
    ensures Conflicting(REQUIRED) && ',' !in REQUIRED
  {
  }

  /** Reading the rebuilt annotation back gives the intended tags, in order and with multiplicity. */
  lemma NewTags(value: string)
    ensures Split(NewValue(value), ',') == [REQUIRED] + Filter(Compatible, Split(value, ','))
  {
    RequiredTag();
    var tags := [REQUIRED] + Filter(Compatible, Split(value, ','));
    forall t | t in tags ensures ',' !in t {
      FilterMembers(Compatible, Split(value, ','), t);
    }
    SplitJoin(tags, ',');
  }

  /** Nothing but conflicting tags is lost, and exactly one conflicting tag remains: the required one. */
  lemma TagsConserved(value: string)
    ensures Filter(Compatible, Split(NewValue(value), ',')) == Filter(Compatible, Split(value, ','))
    ensures Filter(Conflicting, Split(NewValue(value), ',')) == [REQUIRED]
  {
    NewTags(value);
    RequiredTag();
    var kept := Filter(Compatible, Split(value, ','));
    forall t | t in kept ensures Compatible(t) { FilterMembers(Compatible, Split(value, ','), t); }
    FilterConcat(Compatible, [REQUIRED], kept);
    FilterAll(Compatible, kept);
    FilterConcat(Conflicting, [REQUIRED], kept);
    FilterNone(kept);
  }

  /** Tag by tag: the required tag, and every old tag without its prefix. */
  lemma NewTagsExactly(value: string, tag: string)
    ensures tag in Split(NewValue(value), ',') <==>
            tag == "red-hat-managed=true" || (tag in Split(value, ',') && !HasPrefix(tag, "red-hat-managed="))
  {
    NewTags(value);
    hide Split, NewValue;
    assert REQUIRED == "red-hat-managed=true";
    FilterMembers(Compatible, Split(value, ','), tag);
  }

  lemma {:induction false} FilterNone(tags: seq<string>)
    requires forall t :: t in tags ==> Compatible(t)
    ensures Filter(Conflicting, tags) == []
  {
    if tags != [] {
      assert Compatible(tags[0]);
      FilterNone(tags[1..]);
    }
  }

  /** Rebuilding a rebuilt annotation changes nothing, and neither does rebuilding a fresh one. */
  lemma NewValueFixpoint(value: string)
    ensures NewValue(NewValue(value)) == NewValue(value)
    ensures NewValue(REQUIRED) == REQUIRED
  {
    TagsConserved(value);
    RequiredTag();
    SplitWhole(REQUIRED, ',');
    assert Filter(Compatible, [REQUIRED]) == [];
  }

  /** When no tag conflicts, the old text itself follows the required tag, character by character. */
  lemma NoConflictKeepsText(value: string)
    requires forall t :: t in Split(value, ',') ==> Compatible(t)
    ensures NewValue(value) == REQUIRED + "," + value
  {
    var tags := Split(value, ',');
    FilterAll(Compatible, tags);
    assert ([REQUIRED] + tags)[1..] == tags;
    JoinSplit(value, ',');
  }

  // ---------------------------------------------------------------- patch

  /** The annotation map after the mutation. */
  function Mutated(key: string, annotations: Annotations): map<string, string> {
    var current := if annotations.Some? then annotations.value else map[];
    current[key := if key in current then NewValue(current[key]) else REQUIRED]
  }

  /** The operation that achieves it on the document. */
  function PatchFor(key: string, annotations: Annotations): Operation {
    if annotations.None? then
      Operation(Add, "/metadata/annotations", Obj(map[key := Str(REQUIRED)]))
    else
      var path := "/metadata/annotations" + "/" + Escape(key);
      if key in annotations.value then Operation(Replace, path, Str(NewValue(annotations.value[key])))
      else Operation(Add, path, Str(REQUIRED))
  }

  /** buildPatch, with its growing path and tag list. */
  method BuildPatch(key: string, annotations: Annotations) returns (op: Operation)
    ensures op == PatchFor(key, annotations)
  {
    var patchPath := "/metadata/annotations";
    if annotations.Some? {
      patchPath := patchPath + ("/" + Escape(key));
      assert patchPath == "/metadata/annotations" + "/" + Escape(key);
    }
    if annotations.None? {
      return Operation(Add, patchPath, Obj(map[key := Str(REQUIRED)]));
    }
    if key !in annotations.value {
      return Operation(Add, patchPath, Str(REQUIRED));
    }
    var existingTags := Split(annotations.value[key], ',');
    var newTags := [REQUIRED];
    for i := 0 to |existingTags|
      invariant newTags == [REQUIRED] + Filter(Compatible, existingTags[..i])
    {
      FilterConcat(Compatible, existingTags[..i], [existingTags[i]]);
      assert existingTags[..i + 1] == existingTags[..i] + [existingTags[i]];
      if !HasPrefix(existingTags[i], PREFIX) {
        newTags := newTags + [existingTags[i]];
      }
    }
    assert existingTags[..|existingTags|] == existingTags;
    op := Operation(Replace, patchPath, Str(Join(newTags, ',')));
  }

  /** The mutation always establishes the tag and leaves every other annotation alone. */
  lemma MutatedHasTag(key: string, annotations: Annotations)
    ensures HasRedHatManagedTag(key, Some(Mutated(key, annotations)))
    ensures forall k :: k != key ==>
              (k in Mutated(key, annotations) <==> annotations.Some? && k in annotations.value)
              && (k in Mutated(key, annotations) ==> Mutated(key, annotations)[k] == annotations.value[k])
  {
    RequiredTag();
    if annotations.Some? && key in annotations.value {
      NewTags(annotations.value[key]);
    } else {
      SplitWhole(REQUIRED, ',');
    }
  }

  /** Whatever the annotations were (nil, empty, without the key, or with any value), building the patch
      for the result again reproduces the stored value: the mutation is a fixpoint, and the operation for
      the result replaces the annotation by itself. */
  lemma MutationFixpoint(key: string, annotations: Annotations)
    ensures var out := Mutated(key, annotations);
            && Mutated(key, Some(out)) == out
            && PatchFor(key, Some(out)) ==
               Operation(Replace, "/metadata/annotations" + "/" + Escape(key), Str(out[key]))
  {
    var current := if annotations.Some? then annotations.value else map[];
    var out := Mutated(key, annotations);
    NewValueFixpoint(if key in current then current[key] else "");
    assert NewValue(out[key]) == out[key];
    assert out[key := out[key]] == out;
  }

  // ---------------------------------------------------------------- documents

  /** JSON null reads as Go's zero value. */
  predicate StringOrNull(j: Json) { j.Str? || j.Null? }

  function AsString(j: Json): string { if j.Str? then j.s else "" }

  /** The member of an object; a missing member reads like null. */
  function Member(j: Json, name: string): Json {
    if j.Obj? && name in j.members then j.members[name] else Null
  }

  predicate ObjectOrNull(j: Json) { j.Obj? || j.Null? }

  predicate DecodableAnnotations(j: Json) {
    ObjectOrNull(j) && (j.Obj? ==> forall k :: k in j.members ==> StringOrNull(j.members[k]))
  }

  function DecodeAnnotations(j: Json): Annotations {
    if j.Obj? then Some(map k | k in j.members :: AsString(j.members[k])) else None
  }

  /** renderService, as far as the hook reads the object. */
  function Decode(doc: Json): Option<Service> {
    var meta, spec := Member(doc, "metadata"), Member(doc, "spec");
    if !doc.Obj? || !ObjectOrNull(meta) || !ObjectOrNull(spec) then None
    else if !StringOrNull(Member(spec, "type")) || !DecodableAnnotations(Member(meta, "annotations")) then None
    else Some(Service(AsString(Member(spec, "type")), DecodeAnnotations(Member(meta, "annotations"))))
  }

  datatype Outcome = Errored | Allowed | Patched(op: Operation)

  function AuthorizeOrMutate(key: string, doc: Json): Outcome {
    var service := Decode(doc);
    if service.None? then Errored
    else if service.value.serviceType != LOAD_BALANCER then Allowed
    else if HasRedHatManagedTag(key, service.value.annotations) then Allowed
    else Patched(PatchFor(key, service.value.annotations))
  }

  /** The members the hook reads have the types of a Service; null stands for a missing value. */
  predicate WellTyped(doc: Json) {
    && doc.Obj?
    && ("metadata" in doc.members ==>
          var meta := doc.members["metadata"];
          || meta.Null?
          || (&& meta.Obj?
              && ("annotations" in meta.members ==>
                    var a := meta.members["annotations"];
                    a.Null? || (a.Obj? && forall k :: k in a.members ==> a.members[k].Str? || a.members[k].Null?))))
    && ("spec" in doc.members ==>
          var spec := doc.members["spec"];
          || spec.Null?
          || (spec.Obj? && ("type" in spec.members ==> spec.members["type"].Str? || spec.members["type"].Null?)))
  }

  predicate TypeIsLoadBalancer(doc: Json) {
    && doc.Obj? && "spec" in doc.members
    && doc.members["spec"].Obj? && "type" in doc.members["spec"].members
    && doc.members["spec"].members["type"] == Str("LoadBalancer")
  }

  /** The text of the annotation `key`, empty when there is none. */
  function AnnotationText(key: string, doc: Json): string {
    if doc.Obj? && "metadata" in doc.members && doc.members["metadata"].Obj?
       && "annotations" in doc.members["metadata"].members
       && doc.members["metadata"].members["annotations"].Obj?
       && key in doc.members["metadata"].members["annotations"].members
       && doc.members["metadata"].members["annotations"].members[key].Str?
    then doc.members["metadata"].members["annotations"].members[key].s
    else ""
  }

  /** The outcome for every document, on its members: an error exactly when it is not well typed, a patch
      exactly for a LoadBalancer without the tag among its comma-separated tags, else an admission. */
  lemma OutcomeExactly(key: string, doc: Json)
    ensures AuthorizeOrMutate(key, doc) == Errored <==> !WellTyped(doc)
    ensures AuthorizeOrMutate(key, doc).Patched? <==>
            WellTyped(doc) && TypeIsLoadBalancer(doc) && "red-hat-managed=true" !in Split(AnnotationText(key, doc), ',')
    ensures AuthorizeOrMutate(key, doc) == Allowed <==>
            WellTyped(doc) && !(TypeIsLoadBalancer(doc) && "red-hat-managed=true" !in Split(AnnotationText(key, doc), ','))
  {
    hide Split, PatchFor;
    assert Decode(doc).Some? <==> WellTyped(doc);
    if WellTyped(doc) {
      var service := Decode(doc).value;
      assert service.serviceType == "LoadBalancer" <==> TypeIsLoadBalancer(doc);
      assert ReadAnnotation(service.annotations, key) == AnnotationText(key, doc);
      assert REQUIRED == "red-hat-managed=true";
    }
  }

  /** The document in which only the compliance annotation differs. */
  function WithTag(key: string, doc: Json, value: string): Json
    requires doc.Obj? && Member(doc, "metadata").Obj?
  {
    var meta := doc.members["metadata"];
    var current := Member(meta, "annotations");
    var annotations := if current.Obj? then current.members else map[];
    Obj(doc.members["metadata" := Obj(meta.members["annotations" := Obj(annotations[key := Str(value)])])])
  }

  /** Pointers of two plain tokens, and of those and an escaped third. */
  lemma PlainPathTokens(a: string, b: string, key: string)
    requires '~' !in a && '/' !in a && '~' !in b && '/' !in b
    ensures Tokens("/" + a + "/" + b) == Some([a, b])
    ensures Tokens("/" + a + "/" + b + "/" + Escape(key)) == Some([a, b, key])
  {
    hide Escape, Tokens, Pointer;
    EscapePlain(a);
    EscapePlain(b);
    var two, three := [a, b], [a, b, key];
    TokensOfPointer(two);
    TokensOfPointer(three);
    PointerCons(b, []);
    PointerCons(key, []);
    PointerCons(a, [b]);
    PointerCons(b, [key]);
    PointerCons(a, [b, key]);
    assert [a] + [b] == two && [b] + [key] == [b, key] && [a] + [b, key] == three;
    assert Pointer(two) == "/" + a + "/" + b;
    assert Pointer(three) == "/" + a + "/" + b + "/" + Escape(key);
  }

  lemma PathTokens(key: string)
    ensures Tokens("/metadata/annotations") == Some(["metadata", "annotations"])
    ensures Tokens("/metadata/annotations" + "/" + Escape(key)) == Some(["metadata", "annotations", key])
  {
    hide Escape, Tokens;
    PlainPathTokens("metadata", "annotations", key);
    assert "/" + "metadata" + "/" + "annotations" == "/metadata/annotations";
  }

  /** On a document with a metadata object, the operation succeeds and changes only the annotation. */
  lemma PatchResult(key: string, doc: Json, service: Service)
    requires Decode(doc) == Some(service) && Member(doc, "metadata").Obj?
    ensures Apply(doc, PatchFor(key, service.annotations)) == Some(WithTag(key, doc, Mutated(key, service.annotations)[key]))
  {
    hide Escape, Tokens;
    PathTokens(key);
    var meta := doc.members["metadata"];
    var op := PatchFor(key, service.annotations);
    var current := Member(meta, "annotations");
    var tokens := Tokens(op.path).value;
    assert tokens[1..] == (if current.Obj? then ["annotations", key] else ["annotations"]);
    if current.Obj? {
      assert ["annotations", key][1..] == [key];
      assert Put(current, [key], op.value, op.kind == Replace) == Some(Obj(current.members[key := op.value]));
      assert Put(meta, ["annotations", key], op.value, op.kind == Replace)
          == Some(Obj(meta.members["annotations" := Obj(current.members[key := op.value])]));
    } else {
      assert map[key := Str(REQUIRED)] == (map[])[key := Str(REQUIRED)];
      assert Put(meta, ["annotations"], op.value, false) == Some(Obj(meta.members["annotations" := op.value]));
    }
  }

  lemma DecodeWithTag(key: string, doc: Json, service: Service, value: string)
    requires Decode(doc) == Some(service) && Member(doc, "metadata").Obj?
    ensures Decode(WithTag(key, doc, value)) ==
            Some(Service(service.serviceType,
                         Some((if service.annotations.Some? then service.annotations.value else map[])[key := value])))
  {
    var meta := doc.members["metadata"];
    var current := Member(meta, "annotations");
    var members := if current.Obj? then current.members else map[];
    var after := Obj(members[key := Str(value)]);
    assert Member(Member(WithTag(key, doc, value), "metadata"), "annotations") == after;
    var base := if service.annotations.Some? then service.annotations.value else map[];
    assert DecodeAnnotations(after).value == base[key := value];
    assert Member(WithTag(key, doc, value), "spec") == Member(doc, "spec") by { assert "spec" != "metadata"; }
  }

  /** The whole mutation: a patch emitted for a document with a metadata object applies, gives the
      service whose annotations are `Mutated`, and needs no second patch. */
  lemma MutationCorrect(key: string, doc: Json)
    requires AuthorizeOrMutate(key, doc).Patched? && Member(doc, "metadata").Obj?
    ensures var after := Apply(doc, AuthorizeOrMutate(key, doc).op);
            var service := Decode(doc).value;
            && after.Some?
            && Decode(after.value) == Some(service.(annotations := Some(Mutated(key, service.annotations))))
            && AuthorizeOrMutate(key, after.value) == Allowed
  {
    var service := Decode(doc).value;
    PatchResult(key, doc, service);
    DecodeWithTag(key, doc, service, Mutated(key, service.annotations)[key]);
    MutatedHasTag(key, service.annotations);
  }

  /** The operation applies exactly when the document has a metadata object. */
  lemma PatchAppliesExactly(key: string, doc: Json)
    requires AuthorizeOrMutate(key, doc).Patched?
    ensures Apply(doc, AuthorizeOrMutate(key, doc).op).Some? <==> Member(doc, "metadata").Obj?
  {
    hide Escape, Tokens;
    if Member(doc, "metadata").Obj? {
      PatchResult(key, doc, Decode(doc).value);
    } else {
      PathTokens(key);
      assert ["metadata", "annotations"][1..] == ["annotations"];
    }
  }

  /** The hook itself: the decision for its own annotation key. */
  method Authorized(doc: Json) returns (outcome: Outcome)
    ensures outcome == AuthorizeOrMutate("service.beta.kubernetes.io/aws-load-balancer-additional-resource-tags", doc)
  {
    hide Escape;
    var service := Decode(doc);
    if service.None? { return Errored; }
    if service.value.serviceType != LOAD_BALANCER { return Allowed; }
    if HasRedHatManagedTag(KEY, service.value.annotations) { return Allowed; }
    var op := BuildPatch(KEY, service.value.annotations);
    outcome := Patched(op);
  }
}
