# Managed cluster admission webhooks, verified

A Dafny model of the decision and mutation logic of the managed-cluster validating webhooks: the
Kubernetes admission hooks that guard namespaces, the network operator, log retention, image mirrors
and Red Hat managed resources, the two hooks that rewrite services and pods, the dispatcher in front of
them, and the association list from which their SelectorSyncSets are rendered.

| file | models |
|---|---|
| `Regex.dfy`, `RegexPriority.dfy` | the part of Go's `regexp` in use: a denotational meaning, a leftmost-first matcher with captures, the proof that the matcher decides the meaning, and the preference order whose first element it returns |
| `Patterns.dfy`, `ImageContentPolicies.dfy` | the regular-expression tables as plain string tests |
| `Text.dfy`, `JsonPatch.dfy` | `Split`, `Join`, decimal numerals; RFC 6901 pointers; the "add" and "replace" operations of RFC 6902 |
| `ServiceMutation.dfy` | the LoadBalancer tag mutation, from decoded document to patched document |
| `ImageReference.dfy`, `PodImageSpec.dfy` | the greedy image parser, the pod rewrite and the hook around it |
| `ClusterLogging.dfy` | duration parsing, wrapping arithmetic, retention limits, histories of one object |
| `Namespaces.dfy`, `NetworkOperator.dfy`, `RegularUser.dfy` | decision chains, and safety over runs of admitted requests |
| `SyncSet.dfy`, `Dispatcher.dfy` | the selector list and the request dispatcher, as classes |
| `Prelude.dfy`, `Admission.dfy` | shared value types |

## How the model is set up

- Strings are sequences of characters, and regular expressions are syntax trees over them. `$` is the
  end of the text, `.` excludes newline, `\S` excludes tab, newline, form feed, carriage return and space.
- A raw object of a request is absent, malformed, or decoded to the fields a decision reads. The ImageStream
  lookup is a finite map, the review decoder a function, the current client of the pod hook a parameter.
- A nil dereference in a handler is the response `Panicked`, which is not an admission.
- Theorems about the service mutation hold for every annotation key; the hook's own key is `KEY`.
- The pointer that `Get` returns into the selector list is the position of the entry.
- Some lemma bodies use `hide` to keep the verifier from computing with long string constants.

## What turned out not to hold, and exactly when it does

- **Protected labels.** An update compares the number of protected labels and then the old values, reading a
  missing new label as the empty string. An ordinary user can therefore trade an empty protected label for another
  one (`SwapExample`, `SwapAdmitted`). The check freezes the labels of an object exactly when that object does not hold
  an empty protected label while another one is missing (`FreezesExactly`), and over runs of unprivileged updates
  the labels can move exactly when that fails and the name is an ordinary one (`FrozenOverRunsExactly`).
- **Retention.** The uint64 products can wrap: 2^62 + 60 minutes count as one hour (`WrapExample`). Without a wrap the
  decision is exact (`AllowedExactlyWhenCompliant`). It is wrong exactly when a duration wraps to a residue inside its range
  and the others are in range or do the same (`VerdictExactly`, `WrongExactlyOnWrap`).
- **Retention updates.** An update is judged by the object it replaces, so the life of an object is admitted whatever the
  last update stores (`LifeAdmittedExactly`); an offending last object then blocks all updates (`UncheckedObjectExample`).
- **Image mirrors.** The comment above the expression announces `host` or `host/...` for the last two hosts. The code also
  refuses every name that merely begins with `registry.access.redhat.com`, and it accepts quay.io paths that hold a newline
  (`CommentDisagreement`).
- **Image references.** Printing then parsing is the identity exactly when the tag holds no `/`, word characters, `:`
  (`RoundTripExactly`).
- **Service patch.** It applies exactly when the document has a metadata object (`PatchAppliesExactly`).
- **Routing.** The table is independent of the registry's iteration order exactly when no two hooks share a URI
  (`OrderIndependentExactly`), which holds of the registered ones (`RegisteredUrisDistinct`).
- The documentation string of the retention hook speaks of 0 to 7 days; the code, followed here, requires at least one hour.
- The comment on the image check speaks of the openshift namespace; the code parses any namespace, only the gate
  asks for that one, and once the gate is open every internal reference is rewritten.

## Model

| member | source | states |
|---|---|---|
| Regex.RunDecides | pkg/webhooks/utils/utils.go:61-69 | The leftmost-first matcher is sound and complete for the denotational meaning, for every expression, text, position and pending work |
| Regex.MatchDecides | pkg/webhooks/utils/utils.go:61-69 | An unanchored `Match` reports a match exactly when some span of the text matches |
| RegexPriority.RunReturnsFirstWay | pkg/webhooks/podimagespec/podimagespec.go:233-242 | For every expression, the matcher returns the first way of the declared preference order, captures included, and nothing exactly when there is no way |
| RegexPriority.FindReturnsLeftmostFirst | pkg/webhooks/podimagespec/podimagespec.go:233-242 | A search returns the first way at the leftmost position that has one |
| RegexPriority.WaysAreGenuine | pkg/webhooks/clusterlogging/clusterlogging.go:251-264 | Every way of the preference order is a match, and each captured text is a span that its group's expression matches |
| RegexPriority.WaysAreComplete | pkg/webhooks/clusterlogging/clusterlogging.go:251-264 | Every match is one of the ways |
| RegexPriority.CapturesAreGenuine | pkg/webhooks/podimagespec/podimagespec.go:233-242 | Every text a search captures is a span of the subject which its group's expression matches |
| Patterns.PrivilegedGroupMeaning | pkg/webhooks/utils/utils.go:25 | A group matches the service-account expression exactly when its namespace part starts with kube-, openshift, default, redhat-, or osde2e- with an optional h- and five lower-case alphanumerics |
| Patterns.PrivilegedNamespaceMeaning | pkg/config/namespaces.go:10-124 | A name is privileged exactly when it is one of the listed literals or starts with kube- or redhat- |
| Patterns.TableMeaning | pkg/config/config.go:8-10 | The table scan is membership in the literals or one of the prefixes, for any literals and prefixes |
| Patterns.BadNamespaceMeaning | pkg/webhooks/namespace/namespace.go:24 | The harmful-name expression matches exactly com, io and in |
| ImageContentPolicies.UnauthorizedMeaning | pkg/webhooks/imagecontentpolicies/imagecontentpolicies.go:24 | The mirror expression equals four plain string tests, on every source |
| ImageContentPolicies.CommentDisagreement | pkg/webhooks/imagecontentpolicies/imagecontentpolicies.go:21-24 | The exact set of sources on which code and announced family differ |
| ImageContentPolicies.CommentDisagreementExample | pkg/webhooks/imagecontentpolicies/imagecontentpolicies.go:21-24 | A host outside the announced family that is refused |
| ImageContentPolicies.AuthorizeSourcesMeaning | pkg/webhooks/imagecontentpolicies/imagecontentpolicies.go:174-207 | The scan accepts exactly the lists without an unauthorized source |
| ImageContentPolicies.MirrorDecision | pkg/webhooks/imagecontentpolicies/imagecontentpolicies.go:39-79 | The response for every request: denied exactly when a mirror set has an unauthorized source, allowed exactly otherwise, with a nil request kind and undecodable content apart |
| ImageContentPolicies.FewerSourcesKeepAdmission | pkg/webhooks/imagecontentpolicies/imagecontentpolicies.go:174-207 | Order and repetition of sources do not matter, and leaving sources out keeps an admission |
| Text.SplitJoin | pkg/webhooks/service/service.go:133-143 | Splitting a joined list of separator-free pieces gives the list back |
| Text.JoinSplit | pkg/webhooks/service/service.go:133-143 | Joining the pieces of a split text gives the text back |
| JsonPatch.UnescapeEscape | pkg/webhooks/service/service.go:118-119 | Decoding by section 4 of RFC 6901 undoes the one-pass replacer on every key |
| JsonPatch.TokensOfPointer | pkg/webhooks/service/service.go:116-120 | A pointer built from escaped tokens resolves to exactly those tokens |
| JsonPatch.PutExactly | pkg/webhooks/service/service.go:124-143 | An "add" or "replace" on a member succeeds exactly when the enclosing object exists and, for "replace", the member does; the value is then found at its path |
| JsonPatch.PutFrame | pkg/webhooks/service/service.go:124-143 | Every path that parts from the target resolves as before |
| ServiceMutation.BuildPatch | pkg/webhooks/service/service.go:115-144 | The loop builds the operation that the document theorems are about, for nil, empty and filled annotation maps |
| ServiceMutation.NewTags | pkg/webhooks/service/service.go:133-143 | Reading the rebuilt annotation gives the required tag followed by the old compatible tags, in order and with multiplicity |
| ServiceMutation.TagsConserved | pkg/webhooks/service/service.go:133-143 | No compatible tag is lost or reordered, and exactly one tag carries the managed prefix |
| ServiceMutation.NewTagsExactly | pkg/webhooks/service/service.go:133-143 | A tag is in the rebuilt annotation exactly when it is red-hat-managed=true or an old tag without the red-hat-managed= prefix |
| ServiceMutation.NewValueFixpoint | pkg/webhooks/service/service.go:133-143 | Rebuilding a rebuilt or a fresh annotation value reproduces it |
| ServiceMutation.NoConflictKeepsText | pkg/webhooks/service/service.go:133-143 | Without a conflicting tag the old text follows the required tag character by character |
| ServiceMutation.MutationFixpoint | pkg/webhooks/service/service.go:115-144 | For nil, empty, key-absent and filled annotations alike, the mutation and the operation built for its own result reproduce the stored value |
| ServiceMutation.MutatedHasTag | pkg/webhooks/service/service.go:105-109 | The mutated annotations have the tag, and all other keys keep presence and value |
| ServiceMutation.PatchResult | pkg/webhooks/service/service.go:115-144 | The operation applies by sections 4.1 and 4.3 of RFC 6902 and changes nothing but the one annotation of the document |
| ServiceMutation.MutationCorrect | pkg/webhooks/service/service.go:70-98 | An emitted patch applies, gives the service with the mutated annotations, and a second admission emits none |
| ServiceMutation.PatchAppliesExactly | pkg/webhooks/service/service.go:115-144 | The patch applies if and only if the document has a metadata object |
| ServiceMutation.OutcomeExactly | pkg/webhooks/service/service.go:70-109 | On document members: errored exactly when ill typed, patched exactly for type LoadBalancer without red-hat-managed=true among the comma-separated tags, allowed otherwise |
| ServiceMutation.Authorized | pkg/webhooks/service/service.go:70-98 | The hook's control flow equals the decision that OutcomeExactly and MutationCorrect pin, for its own annotation key |
| ImageReference.CheckImageExactly | pkg/webhooks/podimagespec/podimagespec.go:49 | A reference is captured exactly when the text reads as it, with ASCII word characters in the image and white space or nothing after the tag, and no reading has a longer namespace; nothing is captured exactly when there is no reading |
| ImageReference.CheckImageByPosition | pkg/webhooks/podimagespec/podimagespec.go:233-242 | The greedy matcher settles on the last separator of the leading non-space run |
| ImageReference.RoundTripExactly | pkg/webhooks/podimagespec/podimagespec.go:49 | Printing and parsing a well-formed reference is the identity if and only if its tag holds no separator |
| PodImageSpec.PodContainsContainerRegexMatch | pkg/webhooks/podimagespec/podimagespec.go:172-190 | The two scans compute whether some container or init container lies in the openshift namespace |
| PodImageSpec.RewriteImages | pkg/webhooks/podimagespec/podimagespec.go:195-209 | The loop rewrites every position through the lookup, or reports exactly that some lookup fails |
| PodImageSpec.MutatePod | pkg/webhooks/podimagespec/podimagespec.go:192-212 | The result is the mutated pod as a function of the given one, which is left untouched |
| PodImageSpec.MutationShape | pkg/webhooks/podimagespec/podimagespec.go:192-212 | No output exactly when an internal reference does not resolve; otherwise same lengths and other fields, foreign images kept, internal ones replaced by the stored image |
| PodImageSpec.GateAfterMutation | pkg/webhooks/podimagespec/podimagespec.go:172-212 | The gate is open after the mutation exactly when the lookup led back to the openshift namespace |
| PodImageSpec.MutationSettles | pkg/webhooks/podimagespec/podimagespec.go:244-263 | With lookups that leave the internal registry, no internal reference remains, the gate is closed and a second mutation changes nothing |
| PodImageSpec.DecideExactly | pkg/webhooks/podimagespec/podimagespec.go:129-159 | For every client and pod: patched exactly when some image reads as an openshift reference, the registry is known not to be managed and all references resolve; allowed exactly when there is no such image or the registry is managed; error 500 otherwise |
| PodImageSpec.PodImageSpecWebhook.Authorized | pkg/webhooks/podimagespec/podimagespec.go:105-159 | The client is made once and kept; the response is the decision that DecideExactly pins for that client and pod, or error 400 without client or pod |
| PodImageSpec.PatchedPodIsAllowed | pkg/webhooks/podimagespec/podimagespec.go:105-159 | A patched pod that comes back is allowed unchanged if and only if no lookup led back to the openshift namespace |
| ClusterLogging.ParseExactly | pkg/webhooks/clusterlogging/clusterlogging.go:251-264 | Parsing succeeds exactly on digits and one unit with a numeral below 2^64, and returns that number and unit |
| ClusterLogging.ParsePrint | pkg/webhooks/clusterlogging/clusterlogging.go:251-264 | Parsing inverts printing for every 64-bit number and every unit |
| ClusterLogging.ConvertToSeconds | pkg/webhooks/clusterlogging/clusterlogging.go:218-249 | The cascade equals number times unit factor modulo 2^64, for every unit string |
| ClusterLogging.NoWrap | pkg/webhooks/clusterlogging/clusterlogging.go:218-249 | Up to (2^64 - 1) div 31536000 the result is the true product |
| ClusterLogging.LePreorder | pkg/webhooks/clusterlogging/clusterlogging.go:204-216 | On parseable durations the comparison is reflexive, total and transitive; otherwise an error |
| ClusterLogging.RetentionDecision | pkg/webhooks/clusterlogging/clusterlogging.go:101-184 | Three range tests on 64-bit seconds; the first policy that fails decides between denied and errored |
| ClusterLogging.ResponseExactly | pkg/webhooks/clusterlogging/clusterlogging.go:142-202 | The response to every request: the old object, or else the new one, judged by its first failing policy; error 400 when it does not decode |
| ClusterLogging.VerdictExactly | pkg/webhooks/clusterlogging/clusterlogging.go:112-133 | Verdict and truth about one policy differ exactly when the duration wraps and its residue lies in the range |
| ClusterLogging.AllowedExactlyWhenCompliant | pkg/webhooks/clusterlogging/clusterlogging.go:101-184 | Without a wrap, allowed exactly when app retention is 3600 to 604800 true seconds and the other two are 3600; compliant objects are always allowed |
| ClusterLogging.WrongExactlyOnWrap | pkg/webhooks/clusterlogging/clusterlogging.go:218-249 | The decision differs from the promise exactly when every duration is truly in range or misread by a wrap, and at least one is misread |
| ClusterLogging.WrapExample | pkg/webhooks/clusterlogging/clusterlogging.go:218-249 | A concrete duration whose wrap is accepted |
| ClusterLogging.LifeAdmittedExactly | pkg/webhooks/clusterlogging/clusterlogging.go:142-202 | All requests of an object's life are admitted exactly when its first object and every later one but the last are within range or misread; the last is free |
| ClusterLogging.UpdatedObjectsComply | pkg/webhooks/clusterlogging/clusterlogging.go:142-202 | In an admitted life, every object that was updated and does not wrap was compliant |
| ClusterLogging.UncheckedObjectExample | pkg/webhooks/clusterlogging/clusterlogging.go:189-202 | A compliant object is replaced by one without any policy, and then every update is refused |
| Namespaces.ContainedLabels | pkg/webhooks/namespace/namespace.go:297-305 | The loop collects exactly the protected keys that are present, in table order |
| Namespaces.FreezesExactly | pkg/webhooks/namespace/namespace.go:262-291 | For any distinct key list: from an object, the check equals equality of the protected parts for all updates if and only if the object is not swappable |
| Namespaces.NonEmptyValuesFreeze | pkg/webhooks/namespace/namespace.go:262-291 | With non-empty old protected values, passing the check is equality of the protected parts |
| Namespaces.SwapExample | pkg/webhooks/namespace/namespace.go:286-290 | An admitted request of an ordinary user that trades one protected label for the other |
| Namespaces.SwapAdmitted | pkg/webhooks/namespace/namespace.go:183-293 | From every swappable object with an ordinary name there is an admitted unprivileged update that changes the protected part |
| Namespaces.FrozenOverRunsExactly | pkg/webhooks/namespace/namespace.go:183-293 | The protected part survives every run of admitted unprivileged updates if and only if the object is not both swappable and ordinarily named |
| Namespaces.LabelsHavePrivilegedAuthor | pkg/webhooks/namespace/namespace.go:183-293 | In runs by any mix of identities the protected part is the one stored by the last request with standing permission, while that is not swappable |
| Namespaces.LabelVerdictMeaning | pkg/webhooks/namespace/namespace.go:243-293 | Creation, update and deletion in terms of the protected part of the labels |
| Namespaces.ResponseExactly | pkg/webhooks/namespace/namespace.go:183-293 | The response to every request on its fields: standing permission by plain string tests, the judged name, the protected parts of the label maps, and the error and nil cases |
| Namespaces.AdmissionExactly | pkg/webhooks/namespace/namespace.go:183-240 | Admitted exactly when user, groups and name pass plain string tests for standing permission, or the name is ordinary and the protected parts of the label maps are kept or traded |
| Namespaces.PerOperation | pkg/webhooks/namespace/namespace.go:128-305 | Without standing permission: deletions judged by the old name, creations by the new name and labels, updates by the old name and both protected parts |
| Namespaces.SreGroupIsPrivilegedAccount | pkg/webhooks/namespace/namespace.go:336-348 | The SRE group is covered by the service-account expression already |
| Namespaces.MoreGroupsKeepAdmission | pkg/webhooks/namespace/namespace.go:183-240 | Adding groups never loses an admission |
| Namespaces.GroupsAreASet | pkg/webhooks/namespace/namespace.go:183-240 | The response depends only on the set of groups |
| Namespaces.RunFreezesLabels | pkg/webhooks/namespace/namespace.go:243-293 | Over any run of admitted unprivileged updates the protected part of the labels stays what it was |
| Namespaces.CreatedNamespaceStaysUnlabelled | pkg/webhooks/namespace/namespace.go:183-305 | A namespace created by an unprivileged request has no protected label after any admitted unprivileged updates |
| NetworkOperator.UnreportedExactly | pkg/webhooks/networkoperator/networkoperator.go:119-184 | For any sound comparison of MTU values, no change is reported exactly when the blocks are equal and their MTU parts compare equal to themselves |
| NetworkOperator.AdmissionExactly | pkg/webhooks/networkoperator/networkoperator.go:60-116 | For any sound comparison, an update is admitted exactly when it keeps the block as far as the comparison can tell, or comes from one of the named identities |
| NetworkOperator.ResponseExactly | pkg/webhooks/networkoperator/networkoperator.go:60-229 | The response to every request: a changed block is allowed exactly to the three named users and the SRE group and denied to all others, undecodable updates are errors |
| NetworkOperator.GroupsOnlyHelp | pkg/webhooks/networkoperator/networkoperator.go:187-229 | Adding groups never loses an admission and only their set matters |
| NetworkOperator.MigrationHasAllowedAuthor | pkg/webhooks/networkoperator/networkoperator.go:60-229 | At every point of every admitted run, by any mix of identities, the block is the one stored by the last allowed identity, or the initial one |
| NetworkOperator.MigrationFrozen | pkg/webhooks/networkoperator/networkoperator.go:60-229 | Without allowed identities the block never changes |
| RegularUser.MoreGroupsKeepAdmission | pkg/webhooks/regularuser/common/regularuser.go:217-305 | Adding groups never loses an admission, across every branch |
| RegularUser.GroupsAreASet | pkg/webhooks/regularuser/common/regularuser.go:217-305 | The response depends only on the set of groups |
| RegularUser.CustomerDecision | pkg/webhooks/regularuser/common/regularuser.go:217-408 | For a customer the ordered chain is a disjunction of five doors on request fields, with names as plain string tests |
| RegularUser.ConfigMapDecision | pkg/webhooks/regularuser/common/regularuser.go:389-408 | A customer's ConfigMap request is denied exactly when the judged object does not decode or is user-ca-bundle in openshift-config |
| RegularUser.PlatformRefusals | pkg/webhooks/regularuser/common/regularuser.go:217-408 | Everyone else is refused in exactly three cases |
| SyncSet.SyncSetResources.Get | pkg/syncset/syncsetbylabelselector.go:47-54 | Finds the entry of a key exactly when the represented map has it, with the map's value |
| SyncSet.SyncSetResources.Add | pkg/syncset/syncsetbylabelselector.go:35-44 | Updates the represented map at the key by appending the object; other entries keep place and content |
| SyncSet.SyncSetResources.RenderSelectorSyncSets | pkg/syncset/syncsetbylabelselector.go:58-72 | The loop renders the sets that the partition theorems are about |
| SyncSet.FirstSeenKeys | pkg/syncset/syncsetbylabelselector.go:25-44 | After any additions the keys are pairwise distinct and are exactly the keys added |
| SyncSet.InsertionOrder | pkg/syncset/syncsetbylabelselector.go:35-44 | Later objects come later under their key, and new keys come after old ones |
| SyncSet.Conserved | pkg/syncset/syncsetbylabelselector.go:35-54 | The multiset of stored pairs is the multiset of added pairs |
| SyncSet.RenderedCovers | pkg/syncset/syncsetbylabelselector.go:58-72 | Every added object is rendered under its own selector |
| SyncSet.RenderedPartition | pkg/syncset/syncsetbylabelselector.go:58-72 | Selectors and numbered names are pairwise distinct, each set carries the given labels and exactly the objects of its selector in order, and the selectors are those added |
| SyncSet.RenderedMinimal | pkg/syncset/syncsetbylabelselector.go:56-72 | No list of sets that covers the additions under their own selectors is shorter |
| Dispatcher.OrderIndependentExactly | pkg/dispatcher/dispatcher.go:26-34 | All iteration orders build the same table if and only if no two different hooks share a URI |
| Dispatcher.NewTable | pkg/dispatcher/dispatcher.go:26-34 | The loop visits each registered name once and builds the table of that order; with distinct URIs each hook is found under its own |
| Dispatcher.RegisteredUrisDistinct | pkg/dispatcher/dispatcher.go:28-30 | The URIs that the registered hooks answer, each in its own GetURI, are pairwise distinct |
| Dispatcher.RegistryIsOrderIndependent | pkg/dispatcher/dispatcher.go:26-34 | Hence the actual routing table does not depend on map iteration order |
| Dispatcher.StatusMeaning | pkg/dispatcher/dispatcher.go:36-88 | 200 exactly for a non-empty JSON review with a request sent to the URI of a registered hook, 404 exactly for a URI no registered hook has, 400 otherwise, for every table order |
| Dispatcher.OnlyTheOwnHookAnswers | pkg/dispatcher/dispatcher.go:43-88 | A hook answers exactly the requests to its own URI that parse and that it finds valid |
| Dispatcher.Server.HandleRequest | pkg/dispatcher/dispatcher.go:43-88 | Exactly one body is sent, and it is the reply of newly made hooks |
| Dispatcher.Server.Serve | pkg/dispatcher/dispatcher.go:43-88 | In any run every request gets the reply it would get alone, although hooks change their own state |

## Left out

- HTTP serving, TLS, signals and metrics: input and output only.
- JSON encoding and decoding beyond the members the service hook reads, and the patch computed for a mutated pod.
- JSON Patch operations other than "add" and "replace", and pointers through arrays: the hook never emits them.
- Concurrent calls of the dispatcher: its lock makes handlers run one after the other, which is how `Serve` runs them.
- The retry of a failed response encoding: encoding is taken to succeed.
- A log store or retention block that is missing altogether, and an ImageStreamTag without a source image: the source dereferences nil there.
- Response UIDs, messages, rules, selectors, timeouts and log lines.
- The types behind the migration features and MTU values: they are not part of this model, so values are compared by parameters.
- UTF-8 encoding: regular expressions work on characters, not bytes.
- The small allow-list hooks (hosted cluster, manifest works, hive ownership, SCC, tech preview, cluster role, ingress and others): one membership test each, so only easy members.
- The daemon set and CA bundle encoders of the syncset package.
