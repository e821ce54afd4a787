# cfgate: verification of its reconciling engines

cfgate is a Kubernetes operator that keeps Cloudflare objects (Access applications, policies and
service tokens, DNS records, tunnel ingress rules) in step with custom resources. This project models
the engines that do so and proves what they reach, what they keep and, where a desirable claim does
not hold of the code, exactly when it does.

Cloudflare appears as a store of items in creation order under IDs it never reuses. An update is a
full replacement and a write is read back as it was sent, except for what the client itself drops:
approval groups, IP-list and email-list rules, and the proxied flag of TXT records. Any call may fail,
and unless a contract says otherwise a failed write may or may not have reached the server. Kubernetes
appears as the persisted resource with its finalizer and status. Clocks, iteration orders, failures
and everything read from elsewhere are parameters or non-deterministic choices.

| file | what it models |
|---|---|
| `AccessRules.dfy` | access rules from the custom resource to the wire and back, and what they mean |
| `AccessPolicies.dfy` | the policy store and `SyncPolicies` with its two loops over maps |
| `AccessPolicyRuns.dfy` | retries, convergence, independence of iteration order, duplicates |
| `ServiceTokens.dfy` | `EnsureServiceToken` and runs of it |
| `DnsOwnership.dfy` | ownership text: printer, parser, recogniser |
| `Dns.dfy`, `DnsRuns.dfy` | record sync, the reconcile-local cache, ownership records; safety and refinement |
| `DnsOutcomes.dfy` | what single DNS calls do, on the records' own fields and texts |
| `DnsRace.dfy` | any number of controllers syncing one key in any interleaving |
| `Reconciler.dfy`, `ReconcilerRuns.dfy` | the policy reconciler's phases, status and deletion; runs |
| `PolicyAdmission.dfy` | what a reconcile refuses and does, on the resource, the grants and the status fields |
| `Targets.dfy` | ReferenceGrant checks and watch, target index |
| `CredentialCache.dfy` | the TTL cache, sequentially and with the gap in `Get` |
| `Ingress.dfy` | ingress rules edited in place in a slice, first-match routing |
| `GoTypes.dfy`, `Text.dfy` | nil-aware slices, append loops, string operations, joined keys |

## Where the code differs from what one would expect

- An Exclude rule that names an IP or email list never reaches Cloudflare, so the request it should
  keep out gets in (`LostExclude`); such policies, and those with approval groups, are also rewritten on
  every sync (`RuleReadable`, `UnreadableRewritten`); `DeployedSafeExactly` says, on the rules, when that cannot happen. The API documentation promises the exclusion.
- A Require rule with several values asks for all of them, not for any (`RequireExact`).
- An owner ID that is a prefix of another recognises the other's ownership records (`PrefixConfusion`). Every
  owner ID recognises every record with cfgate's comment, which all its CNAME records carry
  (internal/controller/cloudflaredns_controller.go:665), so installations do not keep apart there (`CommentIgnoresOwner`).
- An ownership TXT record is overwritten whoever owns it (`OwnershipTakesOver`): `CreateOwnershipRecord`
  lacks the guard of `SyncRecord`, and spares others exactly where that guard would (`OwnershipSparesOthers`);
  it knows no policy either and updates under create-only (`OwnershipKeepsRecords`).
- A sync can report neither a record nor an error: for a CNAME record wanted where the host has an A or
  AAAA record, and the other way round (`CNAMEBesideA`, `NoRecordBesideRival`); the DNS controller reads the
  record's fields next (internal/controller/cloudflaredns_controller.go:708-717). With a cache the same comes of
  any duplicate error after a lookup that found nothing (`NoRecordExactly`, `DuplicateRecovery`).
- Racing controllers all end with one record unless such a rival host record is there or they want
  different TXT contents (`OneRecord`, `RivalBlocks`, `TwoRecords`).
- The record cache remembers a lookup across the write that follows it, so a later lookup in the same cycle
  misses a new record and shows an updated one as it was (`CachedLookupIsStale`); exactly the calls that change
  the store make it stale (`CacheStaleExactly`), and `TwoCallsExactly` says when a second call does not mind.
- A token that was made without its ID being recorded, because the call was not answered or its credentials
  could not be stored, is left by a deletion (`TokensAccountedExactly`, `FailedSaveLeaks`); credentials so
  lost are issued anew only after the token expires (`StuckUntilExpiry`).
- A renamed application makes the status forget the one made before (`RenameExactly`, `RenameForgets`).
- Surplus policies under a desired name are never removed (`SurplusStays`).
- The target index takes an explicitly empty namespace literally, the resolver takes it for the policy's
  own (`IndexMatchesResolver`).
- A credential set between the expiry check and the removal in another caller's `Get` is removed
  (`GapLosesSet`); that is the only way to lose one (`LostExactly`, `NeverLostExactly`).

## Model

| member | source | states |
|---|---|---|
| AccessRules.RuleRoundTrip | internal/cloudflare/client_impl.go:1741-1945 | a param comes back from the wire unchanged exactly when one field is set, a flag is true, and it is no list reference |
| AccessRules.ConditionRoundTrip | internal/cloudflare/client_impl.go:1741-1945 | every recognised rule kind survives reading and sending again, except the two list kinds, which vanish |
| AccessRules.AccessRulesToAPI | internal/cloudflare/client_impl.go:1803-1816 | the loop sends the params that have a wire form, in order |
| AccessRules.AccessRulesFromAPI | internal/cloudflare/client_impl.go:1724-1736 | nil for no rules, otherwise the recognised rules in order |
| AccessRules.EchoExact | internal/cloudflare/access.go:873-881 | a rule slice equals its own round trip exactly when it is nil, or non-empty with every param sendable |
| AccessRules.ConvertAccessRules | internal/controller/cloudflareaccesspolicy_controller.go:762-894 | rule by rule in order, each value of the first recognised field goes once and in order into the param field of the same name, and nothing else does |
| AccessRules.ConvertedRoundTrip | internal/controller/cloudflareaccesspolicy_controller.go:762-894 | conversion, sending and reading keep order and lose exactly the list params; nothing is lost iff there are none |
| AccessRules.RuleHoldsExactly | internal/controller/cloudflareaccesspolicy_controller.go:769-887 | a written rule, read by its first recognised field and that field's values, holds of a request iff one of the conditions made of it does |
| AccessRules.AnyPreserved | api/v1alpha1/cloudflareaccesspolicy_types.go:268-276 | for every request, some written Include or Exclude rule holds, by its fields, iff some converted param holds, by its fields |
| AccessRules.RequireImplied | api/v1alpha1/cloudflareaccesspolicy_types.go:278-281 | with no silent rule, meeting all converted Require params implies meeting all written rules |
| AccessRules.RequireImpliedExactly | internal/controller/cloudflareaccesspolicy_controller.go:769-840 | that implication holds on all requests iff no rule is silent |
| AccessRules.RequireExact | internal/controller/cloudflareaccesspolicy_controller.go:769-840 | conversion keeps the meaning of Require on all requests iff no rule is silent and every value stands alone in some rule |
| AccessRules.DeployedAnyExact | internal/cloudflare/client_impl.go:803-820 | deployed Include and Exclude never match more than written, and match the same iff no list rule was lost or Everyone is present |
| AccessRules.DeployedRequireExact | internal/cloudflare/client_impl.go:817-819 | deployed Require means what was written iff it is single-valued and names no list |
| AccessRules.DeployedPolicyMeaning | api/v1alpha1/cloudflareaccesspolicy_types.go:245-281 | a whole deployed policy never applies where the written one does not, and applies to the same requests under the stated conditions |
| AccessRules.AdmitsExactly | internal/cloudflare/client_impl.go:803-820 | a deployed policy applies to some request iff Exclude lacks Everyone, Include has a condition Exclude lacks, and no Require condition is excluded |
| AccessRules.DeployedSafeExactly | internal/cloudflare/client_impl.go:803-820 | a deployed policy applies only where the written one does iff it admits nothing, read off its conditions, or Exclude and Require name no list and no Require rule is silent |
| AccessRules.LostExclude | internal/cloudflare/client_impl.go:1818-1945 | a policy and a request where a lost Exclude list lets the request in |
| AccessPolicies.ReadBackExact | internal/cloudflare/client_impl.go:1651-1672 | written params read back as desired iff they have no approval groups and their rule lists settle |
| AccessPolicies.PolicyEqual | internal/cloudflare/access.go:851-886 | the field-by-field drift test is equality of all content |
| AccessPolicies.SyncPolicies | internal/cloudflare/access.go:757-846 | for every iteration order and every failure the store is the old one with the writes in `done` carried out; an error iff a call failed; every policy is an old one or carries the content of a desired entry that is the last of its name, and without error all those are there and their IDs returned |
| AccessPolicies.WantedIsLast | internal/cloudflare/access.go:776-779 | the entry of a name that counts is the last one of the list, as it stands |
| AccessPolicies.DeleteUndesired | internal/cloudflare/access.go:784-797 | the first loop deletes last copies of undesired names only, all of them without error |
| AccessPolicies.UpsertDesired | internal/cloudflare/access.go:799-836 | the second loop updates, keeps or creates every desired name once and collects one ID for each |
| AccessPolicies.ByName | internal/cloudflare/access.go:770-774 | the lookup table holds the last copy of each name |
| AccessPolicies.SurvivorAfter | internal/cloudflare/access.go:801-820 | a desired name that existed keeps its ID, with new content exactly if it was written |
| AccessPolicies.NewcomerAfter | internal/cloudflare/access.go:822-835 | a desired name that was missing is there, fresh and as desired, exactly if its create got through |
| AccessPolicies.UndesiredAfter | internal/cloudflare/access.go:784-797 | an undesired name loses one copy exactly if its delete got through |
| AccessPolicyRuns.NeedsWriteAfter | internal/cloudflare/access.go:785-836 | after any run a name still needs a write iff it was not written and did before, or was written but is unreadable or had another copy |
| AccessPolicyRuns.RunProgress | internal/cloudflare/access.go:785-836 | the number of undesired, missing and mismatched names falls by exactly one per write that got through |
| AccessPolicyRuns.WritesConserved | internal/cloudflare/access.go:785-836 | over any sequence of runs, writes spent plus distance left equal the distance at the start |
| AccessPolicyRuns.Recovery | internal/cloudflare/access.go:753-756 | after any aborted runs one run without error converges, and all later runs, however many, write nothing |
| AccessPolicyRuns.UnreadableRewritten | internal/cloudflare/access.go:848-886 | after a run without error the next one writes exactly the just-written names whose params do not survive the wire |
| AccessPolicyRuns.SettledExactly | internal/cloudflare/access.go:771-836 | with repeated names too, a run without error leaves nothing to write iff every desired name it wrote is readable and every undesired one had a single copy |
| AccessPolicyRuns.ConvergesExactly | internal/cloudflare/access.go:753-836 | a run without error converges iff no name had two copies and every desired name it wrote is readable |
| AccessPolicyRuns.SurplusStays | internal/cloudflare/access.go:771-774 | over any runs the copies of a desired name stay as many as they were, or one is made where there was none |
| AccessPolicyRuns.RunConverges | internal/cloudflare/access.go:753-846 | from distinct names a run without error leaves exactly the desired names, survivors under their IDs, and returns exactly the remaining IDs |
| AccessPolicyRuns.OrderIndependent | internal/cloudflare/access.go:785-836 | two runs from one list in any orders agree on everything but the order and IDs of what they created |
| AccessPolicyRuns.Drain | internal/cloudflare/access.go:771-797 | k runs without error remove exactly k copies of an undesired name, as far as there are any |
| AccessPolicyRuns.Drained | internal/cloudflare/access.go:771-797 | after as many runs as the largest multiplicity no undesired policy is left |
| AccessPolicyRuns.RuleReadable | internal/controller/cloudflareaccesspolicy_controller.go:727-746 | a written policy settles iff it has no approval groups and no list rules |
| AccessPolicyRuns.SyncSpecPolicies | internal/controller/cloudflareaccesspolicy_controller.go:717-754 | the params of rule i have its fields, precedence i+1 by default, and match the requests its include and exclude rules match; without error every rule that is the last of its name is in force under that name |
| AccessPolicyRuns.StoredInForce | internal/cloudflare/client_impl.go:803-820 | a policy written for a rule has its terms and applies to a request iff the deployed rule does; one left alone, to those meeting its include, no exclude and every require value |
| AccessPolicyRuns.ReadMeans | internal/cloudflare/client_impl.go:1724-1800 | a list read back from the server means what it means on the wire |
| ServiceTokens.EnsureServiceToken | internal/cloudflare/access.go:892-979 | one call does nothing, creates under a free name, or rotates strictly after expiry; an error iff a call failed; the answer is the token now found, and new credentials were saved |
| ServiceTokens.AtMostOneCreate | internal/cloudflare/access.go:888-891 | over any run at most one create takes effect, none if the name was taken |
| ServiceTokens.SecretTracksToken | internal/cloudflare/access.go:926-939 | after any run the Secret matches the token iff the last credentials issued were saved, or it matched before and none were |
| ServiceTokens.StuckUntilExpiry | internal/cloudflare/access.go:912-950 | no call before expiry changes anything, so a lost secret stays lost |
| DnsOwnership.ParseOwnershipRecord | internal/cloudflare/dns.go:468-500 | the parser's loop returns the last owner and resource part, and handles the legacy format |
| DnsOwnership.ParseBuilt | internal/cloudflare/dns.go:433-500 | parsing undoes building iff owner and resource contain no comma |
| DnsOwnership.ParsesExactly | internal/cloudflare/dns.go:468-500 | a content parses iff it starts with "heritage=cfgate" or "managed by cfgate" stands in it |
| DnsOwnership.ParseLegacy | internal/cloudflare/dns.go:484-497 | of the older form the resource is what follows the first "tunnel=", up to a comma |
| DnsOwnership.OwnedByPrefix | internal/cloudflare/dns.go:446-465 | a built record is recognised by an owner iff that owner is a prefix of the one printed |
| DnsOwnership.OwnersKeptApart | api/v1alpha1/cloudflaredns_types.go:252-262 | among prefix-free owner IDs each recognises exactly its own ownership records |
| DnsOwnership.CommentIgnoresOwner | internal/cloudflare/dns.go:446-465 | all owner IDs agree on a record iff its content is no ownership text: the comment decides then, and names no owner |
| DnsOutcomes.OwnedByText | internal/cloudflare/dns.go:446-465 | a record is recognised iff its ownership text holds the asked owner key, or without such text "managed by cfgate" stands in its comment |
| DnsOwnership.PrefixConfusion | internal/cloudflare/dns.go:456 | cluster-1 recognises what cluster-10 owns |
| Dns.CacheKeyInjective | internal/cloudflare/dns.go:88-90 | cache keys are told apart when zone IDs and types have no colon |
| Dns.DNSService.FindRecordByName | internal/cloudflare/dns.go:282-309 | the first record of the key, from the cache if it has an entry, remembered otherwise |
| Dns.DNSService.SyncRecord | internal/cloudflare/dns.go:136-183 | store, cache and result are those of the sync with updates allowed |
| Dns.DNSService.SyncRecordWithPolicy | internal/cloudflare/dns.go:186-245 | the same under the policy's permission, hence the same as SyncRecord unless create-only |
| Dns.DNSService.CreateOwnershipRecord | internal/cloudflare/dns.go:330-365 | store, cache and result of the ownership upsert |
| Dns.DNSService.DeleteRecordWithPolicy | internal/cloudflare/dns.go:270-277 | deletes only under the sync policy |
| DnsOutcomes.SyncOfPresent | internal/cloudflare/dns.go:163-216 | SyncRecord, and SyncRecordWithPolicy under each policy, leave alone a record that is foreign by its text, as wanted in all four fields, or only creatable, and replace any other in place |
| DnsOutcomes.SyncOfMissing | internal/cloudflare/dns.go:144-161 | a missing record is appended as wanted under a new ID, unless a host record of another type is in the way |
| DnsOutcomes.SyncErrsExactly | internal/cloudflare/dns.go:136-183 | an uncached sync reports an error iff its lookup failed, a write it needed was not confirmed, or the lookup after a duplicate error failed |
| DnsOutcomes.OwnershipOutcome | internal/cloudflare/dns.go:330-365 | the TXT record of prefix.hostname with the owner's text is appended, replaced in place or found right, whoever owns it |
| DnsOutcomes.DeleteOutcome | internal/cloudflare/dns.go:256-277 | a delete removes exactly its record under sync and succeeds idly otherwise |
| DnsRuns.ForeignUntouched | internal/cloudflare/dns.go:132-135 | no run of syncs, uncached or through caches renewed at any time, alters a record that none of its owner IDs owns and no cache held at the start misremembers |
| DnsRuns.SyncSparesOthers | internal/cloudflare/dns.go:163-182 | a sync with any cache leaves the records of all others alone iff its cache does not show an owned record in place of one that is not |
| DnsRuns.UpsertOnlyKeepsIDs | internal/cloudflare/dns.go:27-28 | under upsert-only no record ID disappears, with any cache, deletes and ownership records included |
| DnsRuns.CreateOnlyKeepsRecords | internal/cloudflare/dns.go:29-30 | under create-only every earlier record stays identical, in place, through any syncs and deletes with any cache |
| DnsRuns.OwnershipKeepsRecords | internal/cloudflare/dns.go:330-365 | with any cache CreateOwnershipRecord, under any policy, leaves every earlier record as it was iff it does not see one that says something else and change it |
| DnsRuns.SyncTouches | internal/cloudflare/dns.go:163-182 | with any cache one sync changes at most the record under the ID it saw, and only if it saw it owned and may update |
| DnsRuns.SyncDeletes | internal/cloudflare/dns.go:256-277 | under sync a delete removes exactly that record |
| DnsRuns.SecondCallIdle | internal/cloudflare/dns.go:163-182 | an immediate second call writes nothing iff it is not a proxied TXT record, recognised by the owner, that may be updated, beside no record or one the owner recognises |
| DnsRuns.OwnershipEstablished | internal/cloudflare/dns.go:328-365 | after success the record is recognised by its owner, parses back, and a repeat writes nothing |
| DnsRuns.OwnershipTakesOver | internal/cloudflare/dns.go:339-351 | an existing TXT record of anybody else is replaced |
| DnsRuns.OwnershipSparesOthers | internal/cloudflare/dns.go:330-365 | it leaves the records of all others alone iff it finds none, finds one its owner recognises, or does not get to write |
| DnsRuns.CacheRefines | internal/cloudflare/dns.go:76-130 | on distinct keys a cached batch leaves the same store and gives the same results as an uncached one |
| DnsRuns.QuietRefines | internal/cloudflare/dns.go:76-130 | keys may repeat: a cached batch refines the uncached one as long as no key is used again after a call that wrote to it |
| DnsRuns.TwoCallsExactly | internal/cloudflare/dns.go:76-130 | two calls on one key agree with and without the cache iff the second lookup works where the first did and the second call is indifferent to what the first wrote |
| DnsRuns.FreshCacheRefines | internal/cloudflare/dns.go:122-130 | in particular with the empty cache of a new reconcile cycle |
| DnsRuns.CachedLookupIsStale | internal/cloudflare/dns.go:282-309 | after a cached call the next cached lookup answers from before the call |
| DnsRuns.CacheStaleExactly | internal/cloudflare/dns.go:282-309 | that answer is right iff the call created nothing and changed nothing it found, stated on the store, the call and its failures |
| DnsRuns.NoRecordExactly | internal/cloudflare/dns.go:136-183 | with any cache and failures, when a sync reports neither a record nor an error |
| DnsRuns.NoRecordBesideRival | internal/cloudflare/dns.go:502-509 | alone, uncached and without failures that happens iff no record of the key exists but a host record of another type does |
| DnsRuns.CNAMEBesideA | internal/cloudflare/dns.go:219-230 | such an input: a CNAME record wanted beside an A record |
| DnsRuns.DuplicateRecovery | internal/cloudflare/dns.go:219-230 | recovery from a duplicate error gives a record iff the service has no cache, the second lookup works and the clash is with a record of the wanted type; an error only if that lookup fails |
| DnsRace.Race.OneRecord | internal/cloudflare/dns.go:136-183 | all fair interleavings end with one record of the key held by every caller iff at most one had it at first and, if none had, no host record of another type was there or, for TXT, the callers want one content |
| DnsRace.Race.StepInvariant | internal/cloudflare/dns.go:136-183 | from such a start every step of every caller keeps at most one record of the key and every caller consistent with it |
| DnsRace.Race.Finishes | internal/cloudflare/dns.go:136-183 | a call ends after at most three turns of its own |
| DnsRace.Race.AloneIsSync | internal/cloudflare/dns.go:136-183 | the steps of one caller alone amount to one uncached SyncRecord |
| DnsRace.Race.TwoRecords | internal/cloudflare/dns.go:502-509 | two wanted TXT contents: a fair interleaving leaves two records |
| DnsRace.Race.RivalBlocks | internal/cloudflare/dns.go:149-156 | beside a host record of another type every fair interleaving leaves the store as it is and all callers without record and without error |
| Reconciler.AccessPolicyStatusEqual | internal/controller/cloudflareaccesspolicy_controller.go:1202-1262 | equal iff all but condition times and generations agrees, so an ID change is never hidden |
| PolicyAdmission.StatusEqualExactly | internal/controller/cloudflareaccesspolicy_controller.go:1202-1262 | field by field: statuses are equal but for the times and generations of their conditions |
| Reconciler.KubeAPI.UpdateStatus | internal/controller/cloudflareaccesspolicy_controller.go:1179-1200 | the persisted status is replaced unless nothing visible changed or a call failed |
| Reconciler.AccessPolicyReconciler.Reconcile | internal/controller/cloudflareaccesspolicy_controller.go:108-140 | deletion, finalizer or phases, with their whole effect |
| Reconciler.AccessPolicyReconciler.ReconcilePhases | internal/controller/cloudflareaccesspolicy_controller.go:145-312 | the effect of every early exit and of the full pass |
| PolicyAdmission.RefusedMakesNothing | internal/controller/cloudflareaccesspolicy_controller.go:150-236 | without credentials, with an unsupported kind, no resolved target, a refusing grant check or no domain, nothing is made and the recorded IDs stay |
| PolicyAdmission.UngrantedMakesNothing | internal/controller/cloudflareaccesspolicy_controller.go:204-217 | a target in another namespace that no grant there names keeps the policy from making anything |
| PolicyAdmission.AdmittedMakes | internal/controller/cloudflareaccesspolicy_controller.go:219-308 | with none of these and working calls the application is there and recorded, and after the policies so is every wanted token |
| PolicyAdmission.FinalizerFirst | internal/controller/cloudflareaccesspolicy_controller.go:130-140 | a live policy gets its finalizer before anything is made |
| PolicyAdmission.TwoReconciles | internal/controller/cloudflareaccesspolicy_controller.go:108-312 | two working reconciles take a new policy to recorded application and tokens behind the finalizer |
| Reconciler.AccessPolicyReconciler.EnsureServiceTokens | internal/controller/cloudflareaccesspolicy_controller.go:912-956 | tokens in order up to the first error, IDs recorded as they come |
| PolicyAdmission.HolderFirst | internal/cloudflare/access.go:902-911 | adoption by name takes the first item of the name |
| Reconciler.AccessPolicyReconciler.ReconcileDelete | internal/controller/cloudflareaccesspolicy_controller.go:1079-1143 | the effect of deletion, failed cleanup included |
| Reconciler.AccessPolicyReconciler.RevokeTokens | internal/controller/cloudflareaccesspolicy_controller.go:1121-1130 | in any order exactly the recorded tokens whose deletion did not fail go |
| ReconcilerRuns.AlwaysRecorded | internal/controller/cloudflareaccesspolicy_controller.go:108-312 | over any run, renames included, everything made is at all times in the persisted status while the finalizer stands and gone afterwards, iff every event of the run is trustworthy |
| ReconcilerRuns.HappenRecordedExactly | internal/controller/cloudflareaccesspolicy_controller.go:108-312 | one event keeps that promise iff it is trustworthy, a condition on the state before it and the failures met |
| ReconcilerRuns.UsuallyRecorded | internal/controller/cloudflareaccesspolicy_controller.go:108-312 | without renames, with reliable reconciles and clean deletions the promise holds throughout |
| ReconcilerRuns.PhasesRecordedExactly | internal/controller/cloudflareaccesspolicy_controller.go:237-308 | the phases keep the account of made objects complete iff nothing made goes unanswered, unsaved or unwritten and the application name still leads to the one made |
| ReconcilerRuns.ClaimedExactly | internal/controller/cloudflareaccesspolicy_controller.go:237-262 | the same for the application alone |
| ReconcilerRuns.TokensAccountedExactly | internal/controller/cloudflareaccesspolicy_controller.go:912-956 | the loop over the tokens keeps the account iff it does not stop by losing one; if it does, that token is recorded nowhere |
| ReconcilerRuns.LosslessWhenAnswered | internal/controller/cloudflareaccesspolicy_controller.go:926-948 | with every call answered it loses none iff each wanted token exists or can be saved |
| ReconcilerRuns.DeletionLeaves | internal/controller/cloudflareaccesspolicy_controller.go:1090-1142 | exactly which applications and tokens deletion leaves, in all cases |
| ReconcilerRuns.DeletionRecordedExactly | internal/controller/cloudflareaccesspolicy_controller.go:1090-1142 | deletion keeps the promise iff the finalizer stays, nothing made is left, or all of it can be deleted |
| ReconcilerRuns.DeletionClean | internal/controller/cloudflareaccesspolicy_controller.go:1075-1078 | a working non-orphan delete removes all that was made before the finalizer goes |
| ReconcilerRuns.GoodPassRecordsAll | internal/controller/cloudflareaccesspolicy_controller.go:237-280 | a pass in which everything works records the application and every wanted token |
| ReconcilerRuns.GoodPassHeals | internal/controller/cloudflareaccesspolicy_controller.go:237-308 | a fully working pass completes a lost account iff every application made bears the name and every token made is wanted or recorded |
| ReconcilerRuns.FailedSaveLeaks | internal/controller/cloudflareaccesspolicy_controller.go:943-948 | whenever the loop lost a token, a delete that follows leaves it behind, whatever goes well in it |
| ReconcilerRuns.RenameExactly | internal/controller/cloudflareaccesspolicy_controller.go:700-702 | a rename and a reliable reconcile keep the account iff no application made is left or it bears the new name |
| ReconcilerRuns.RenameForgets | internal/controller/cloudflareaccesspolicy_controller.go:700-702 | otherwise the status forgets the old application, which stays |
| Targets.GrantPermitsAccess | internal/controller/cloudflareaccesspolicy_controller.go:600-623 | true iff a matching from and a matching to exist |
| Targets.CheckReferenceGrants | internal/controller/cloudflareaccesspolicy_controller.go:551-595 | no error iff every target is allowed; otherwise the first that is not |
| Targets.AcceptedExactly | internal/controller/cloudflareaccesspolicy_controller.go:551-623 | accepted iff for every target named in another namespace a grant there names access policies of this namespace and the target kind |
| Targets.FindPoliciesForReferenceGrant | internal/controller/cloudflareaccesspolicy_controller.go:1517-1555 | each policy naming the namespace, once and in order |
| Targets.ConcernedExactly | internal/controller/cloudflareaccesspolicy_controller.go:1532-1545 | it looks at targetRef and targetRefs and at their explicit namespaces |
| Targets.SelectedExactly | internal/controller/cloudflareaccesspolicy_controller.go:1534-1555 | the requests enqueued are the namespaces and names of the policies selected, and no others |
| Targets.GrantWatchComplete | internal/controller/cloudflareaccesspolicy_controller.go:1514-1516 | if grants in one namespace decide a policy's acceptance, the watch enqueues it |
| Targets.GrantDecides | internal/controller/cloudflareaccesspolicy_controller.go:574-591 | such policies exist for every namespace: grants there alone accept or reject them |
| Targets.TargetIndexKeys | internal/controller/cloudflareaccesspolicy_controller.go:1363-1383 | one key per reference, with the defaulted namespace |
| Targets.TargetKeyInjective | internal/controller/cloudflareaccesspolicy_controller.go:1357-1359 | keys are told apart when kinds and namespaces have no slash |
| Targets.IndexIsScan | internal/controller/cloudflareaccesspolicy_controller.go:1483-1512 | index lookup returns exactly the policies a scan of all references would |
| Targets.IndexFinds | internal/controller/cloudflareaccesspolicy_controller.go:1357-1383 | the index finds a policy iff one of its references has that kind and name and that namespace, absent meaning its own |
| Targets.IndexMatchesResolver | internal/controller/context/wrappers.go:885-888 | the index finds a policy by every object its references resolve to iff empty namespaces are also spelled out |
| CredentialCaches.CacheKeyInjective | internal/cloudflare/cache.go:44-46 | a new resource version or another UID is another key |
| CredentialCaches.CredentialCache.Get | internal/cloudflare/cache.go:50-70 | answers from the last uncancelled Set while it is at most ttl old, and from nothing else |
| CredentialCaches.CredentialCache.GetOrCreate | internal/cloudflare/cache.go:86-102 | asks the create function only without an answer, and stores only its success |
| CredentialCaches.CredentialCache.Cleanup | internal/cloudflare/cache.go:122-132 | drops exactly the expired entries, unnoticed by Get |
| CredentialCaches.UndisturbedGet | internal/cloudflare/cache.go:50-70 | the steps of a Get that nobody disturbs amount to the sequential Get |
| CredentialCaches.AnswersSound | internal/cloudflare/cache.go:50-70 | no interleaving answers a client of another key or one expired when checked |
| CredentialCaches.LostExactly | internal/cloudflare/cache.go:61-67 | a fresh Set is lost in one step iff that step removes the key after it was set again |
| CredentialCaches.NeverLostExactly | internal/cloudflare/cache.go:50-82 | over any interleaving nothing set is lost iff no such late removal happens |
| CredentialCaches.NothingLost | internal/cloudflare/cache.go:61-67 | without a Set during a pending Get of its key nothing is lost |
| CredentialCaches.GapLosesSet | internal/cloudflare/cache.go:53-67 | an interleaving that loses a Set just made |
| Ingress.TunnelConfig.constructor | internal/cloudflared/configmap.go:85-119 | defaults and one catch-all to the fallback |
| Ingress.TunnelConfig.AppendAt | internal/cloudflared/configmap.go:135 | append to a prefix of the slice, overwriting the backing array if it has room |
| Ingress.TunnelConfig.AddRule | internal/cloudflared/configmap.go:123-139 | the rule goes before the final catch-all, even when that is overwritten in place |
| Ingress.TunnelConfig.SetCatchAll | internal/cloudflared/configmap.go:142-156 | the final catch-all is replaced or added |
| Ingress.TunnelConfig.Validate | internal/cloudflared/configmap.go:160-183 | no error iff the tunnel is named and the list sound; otherwise the first fault |
| Ingress.EditLocal | internal/cloudflared/configmap.go:121-156 | an edit changes only where requests go that reached the final catch-all, and says where |
| Ingress.EditExactly | internal/cloudflared/configmap.go:121-156 | on the fields: a final rule without hostname and path is the catch-all and stays last or is replaced; otherwise the edit appends |
| Ingress.EditsRoute | internal/cloudflared/configmap.go:121-183 | after any edits the list validates and every request has a route |
| Ingress.EarlierRuleWins | internal/cloudflared/configmap.go:121-122 | a request matched by a rule keeps its route through all later edits |
| Ingress.EnsureCatchAllRoutes | internal/cloudflare/tunnel.go:166-188 | keeps every match, sends the rest to 404, is idempotent and adds nothing to a list that ends in a catch-all |

## Left out

- HTTP, paging, JSON and YAML: the SDK and its wire encoding are not part of this model; rules have a wire datatype instead.
- Cloudflare's own rules beyond what the client's error codes and messages say: records and policies are not normalised or defaulted by the server; a create is refused for an existing A, AAAA or CNAME record of the host (81053) or an identical record (81058).
- `ExtractZoneFromHostname`: rests on the external public suffix list.
- `EnsureTunnel`, tunnel deletion and health, `BuildOriginConfig`, `ValidateTTL`, `accessApplicationNeedsUpdate`: single-branch or field-by-field.
- Application drift: in `Reconciler` an existing application is adopted and its update is part of whether that call works.
- mTLS certificates: the reconciler overwrites their ID in the status, and their deletion is not modelled.
- Resolving credentials and targets, and computing hostnames: parameters of a reconcile; target references carry their resolved namespace.
- Status conditions: an opaque list per reconcile; `MergeConditions` is not modelled.
- Policies of the application inside `Reconciler`: one outcome; their sync is modelled in `AccessPolicies`.
- The expiry of tokens inside `Reconciler`: rotation keeps the ID, so it does not matter there; it is modelled in `ServiceTokens`.
- Races on one status or on service tokens: one reconcile of a policy runs at a time, as controller-runtime guarantees.
- A nil client returned without error by the create function of the credential cache.
- The gateway, HTTPRoute, tunnel and DNS controllers, predicates, deployment builders, `cmd/` and the web site.
- Logging, events, requeue delays, leader election and informer staleness.
