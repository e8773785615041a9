# credentials-fetcher: deployment scripts, lease-path parser and ticket renewal in Dafny

This project models the decision logic of credentials-fetcher, the daemon that gets
Kerberos tickets for group Managed Service Accounts (gMSA) for Linux containers, and of
the scripts around it that set up and exercise the ECS "domainless mode" deployment.
Every AWS call is replaced by its reply, passed in as data. This covers the lists the
services return, lookup functions for `describe_*` calls, and scripted success or
failure of every mutating call. The Kerberos routines of the daemon become scripted
status codes. The model is pure: each operation is a function, or a method where the
original loops, from those replies to the calls it makes and the value it returns.

Modules:

- `Credspec` covers the credential-spec template and `create_credspec`'s four
  placeholder substitutions in their order. It also holds the S3 key, the bucket ARN
  and the `credentialspecdomainless:` reference format.
- `CopyScript` is the stand-alone copy script. It substitutes the shared values once,
  and the account name per account on a copy. It uploads with skip-on-failure and then
  runs the batch loop: ten containers per definition, and the aliased template that
  grows by one `FARGATE` and one capability attribute per iteration.
- `TaskDefs` holds the lookups (execution role, template, cluster) and the record
  transformations `modify_task_definition` and `register_new_task_definition`.
- `TaskUpdate` holds `update_task_definition_image`, the `run_task` credential gate,
  family extraction in `get_task_definition_families`, and the per-family loop of the
  update-and-run script.
- `EndToEnd` holds the bucket checks and the bucket gate of `run_e2e_test`,
  `create_and_register_tasks`, and the run as a whole: its stages in order with no
  `try` around them, so the first exception ends the run and skips the clean-up.
- `Reconciler` covers `get_running_task_definitions` and `delete_unused_task_definitions`.
- `SqlProbe` holds the `SQL_SUCCESS_MARKER` classifier, `get_windows_hostname` and
  `get_instance_id_by_name`.
- `InboundRules` is `add_security_group_to_instance` with its `rule_exists` check.
- `Daemon` covers `parse_cred_file_path` and the `CF_CRED_SPEC_FILE` block of `main`.
- `Renewal` is `krb_ticket_renew_handler`: the metadata filter, the eligibility test,
  the two-attempt retry loop with its fallback, and the domainless user name.
- `IntegrationTest` holds `get_environment_var` and `parseS3Arn`, including the
  `npos + 1 == 0` case.
- Shared modules:
  - `Wrappers` holds `Option`, `Result` and the exceptions the scripts raise;
  - `Strings` models Python's `in`, `replace`, `split`, `strip`, `splitlines`, `str`
    for naturals and `find`;
  - `Seqs` holds first-index search and counting;
  - `Ecs` is the task-definition data model, with each key the service may leave out
    of a description as an `Option`;
  - `PyInt` is Python's `int()` on strings.

## Model

| member | source | states |
|---|---|---|
| Credspec.SubstituteShape | cdk/cdk-domainless-mode/tests/copy_credspecs_and_create_task_defs.py:67-70 | One `replace` of a pattern absent from the fixed text, over a spec in the template's layout, gives the same layout with `replace` applied to each value and the fixed text unchanged |
| Credspec.DomainStep | cdk/cdk-domainless-mode/tests/copy_credspecs_and_create_task_defs.py:67 | Replacing DOMAINNAME in the template puts the directory name in DnsTreeName, DnsName and the first account's scope, and leaves the other placeholders in place |
| Credspec.NetbiosStep | cdk/cdk-domainless-mode/tests/copy_credspecs_and_create_task_defs.py:68 | Replacing NETBIOS_NAME next puts the NetBIOS name in NetBiosName and the second account's scope |
| Credspec.GmsaStep | cdk/cdk-domainless-mode/tests/copy_credspecs_and_create_task_defs.py:69 | Replacing GMSA_NAME next fills MachineAccountName and both account names |
| Credspec.SecretStep | cdk/cdk-domainless-mode/tests/copy_credspecs_and_create_task_defs.py:70 | Replacing GMSA_SECRET_ARN last fills the CredentialArn |
| Credspec.SubstitutionsFill | cdk/cdk-domainless-mode/tests/copy_credspecs_and_create_task_defs.py:67-70 | When the placeholders do not occur in one another, the fixed text holds none and the values hold none, the four substitutions in order put each value exactly in its fields |
| Credspec.SubstitutionsCapture | cdk/cdk-domainless-mode/tests/copy_credspecs_and_create_task_defs.py:67-70 | A directory name that is itself the GMSA_NAME placeholder is captured by the later account substitution: the account name ends up where the domain goes |
| Credspec.PlaceholdersApart | cdk/cdk-domainless-mode/tests/copy_credspecs_and_create_task_defs.py:67-70 | The four placeholder strings are non-empty, and none occurs in a placeholder that is substituted later |
| Credspec.MarkFree | cdk/cdk-domainless-mode/tests/copy_credspecs_and_create_task_defs.py:67-70 | A value with no capital 'O' and no '_' holds none of the four placeholders |
| Credspec.FixedUntouched | cdk/cdk-domainless-mode/tests/copy_credspecs_and_create_task_defs.py:35-66 | None of the placeholders occurs in the template's fixed text: plugin name, SID, GUID, version and plugin GUID |
| Credspec.CreateCredspecFields | cdk/cdk-domainless-mode/tests/copy_credspecs_and_create_task_defs.py:34-71 | With plain values, `create_credspec` yields the intended spec: the directory name in both DNS fields and the first scope, the NetBIOS name in NetBiosName and the second scope, the account name in all three name fields, and the secret ARN as CredentialArn |
| Credspec.SubstitutionOrderMatters | cdk/cdk-domainless-mode/tests/copy_credspecs_and_create_task_defs.py:67-70 | The fixed order shows: the directory name "GMSA_NAME" gives the account name in the domain fields |
| Credspec.SharedThenAccount | cdk/cdk-domainless-mode/copy_credspecs_and_create_task_defs.py:73-81 | Substituting domain, NetBIOS name and secret first and the account name afterwards fills the same positions as the per-call order |
| Credspec.AccountNamePlain | cdk/cdk-domainless-mode/copy_credspecs_and_create_task_defs.py:138 | The account name "WebApp0" + i holds no placeholder |
| Credspec.BatchOrderAgrees | cdk/cdk-domainless-mode/copy_credspecs_and_create_task_defs.py:73-138 | With plain configuration values, the shared template with account i's name substituted equals `create_credspec` for that account |
| Credspec.UploadCredspec | cdk/cdk-domainless-mode/tests/copy_credspecs_and_create_task_defs.py:73-82 | On success the key is gmsa_name + "_credspec.json" and the bucket ARN "arn:aws:s3:::" + bucket; any exception gives None |
| Credspec.CredentialReference | cdk/cdk-domainless-mode/copy_credspecs_and_create_task_defs.py:152-153 | The reference is "credentialspecdomainless:" + bucket ARN + "/" + key, and the location can be read back from it |
| Credspec.AccountReferencesDistinct | cdk/cdk-domainless-mode/copy_credspecs_and_create_task_defs.py:148-153 | Distinct accounts get distinct references |
| CopyScript.StoredAccounts | cdk/cdk-domainless-mode/copy_credspecs_and_create_task_defs.py:137-155 | An account's object is in the bucket exactly when its `put_object` returned, whatever `get_bucket_location` did; the accounts are listed in increasing order |
| CopyScript.AccountKeysDistinct | cdk/cdk-domainless-mode/copy_credspecs_and_create_task_defs.py:148 | Equal object keys mean equal accounts, so no upload overwrites another |
| CopyScript.StoredAreIntended | cdk/cdk-domainless-mode/copy_credspecs_and_create_task_defs.py:138-150 | With plain values, the body stored for account i is the spec `create_credspec` builds for "WebApp0" + i |
| CopyScript.UploadedAccounts | cdk/cdk-domainless-mode/copy_credspecs_and_create_task_defs.py:137-155 | The accounts in 1..n whose `put_object` and `get_bucket_location` both returned, in increasing order |
| CopyScript.CredspecReferences | cdk/cdk-domainless-mode/copy_credspecs_and_create_task_defs.py:136-155 | Entry k is the reference of the k-th account whose upload fully succeeded, in account order, so a failed upload shifts the later references down; no other entries and no duplicates |
| CopyScript.AllUploadedAccounts | cdk/cdk-domainless-mode/copy_credspecs_and_create_task_defs.py:137-155 | When every upload succeeds, the fully uploaded accounts are exactly 1..n in order |
| CopyScript.AllUploadedReferences | cdk/cdk-domainless-mode/copy_credspecs_and_create_task_defs.py:136-155 | When every upload succeeds, the list has n entries and entry k - 1 is account k's reference |
| CopyScript.BatchContainers | cdk/cdk-domainless-mode/copy_credspecs_and_create_task_defs.py:164-169 | Exactly ten containers; container j is a copy of the template's first container, named "MyContainer" + j, with credentialSpecs [credspecs[j-1]] |
| CopyScript.BatchContainersWellFormed | cdk/cdk-domainless-mode/copy_credspecs_and_create_task_defs.py:164-169 | The ten container names are distinct, every container passes the run gate, and each keeps the first container's image and settings |
| CopyScript.ContainersMatchAccounts | cdk/cdk-domainless-mode/copy_credspecs_and_create_task_defs.py:168 | When all of at least ten uploads succeed, container j of every definition points at account j's spec, whatever the outer index |
| CopyScript.BatchLoop | cdk/cdk-domainless-mode/copy_credspecs_and_create_task_defs.py:157-186 | Each iteration's request is the same ten containers with family base + "-" + i. Missing first container or fewer than ten references raise IndexError. No role raises NameError; with a role, a template without networkMode, cpu or memory raises KeyError before the call. A failed registration ends the loop after its call. Only compatibilities and attributes of the template change |
| CopyScript.BatchFamiliesDistinct | cdk/cdk-domainless-mode/copy_credspecs_and_create_task_defs.py:177 | Equal batch families mean equal indices |
| CopyScript.LoopFamiliesDistinct | cdk/cdk-domainless-mode/copy_credspecs_and_create_task_defs.py:177-178 | No two registrations of the loop share a family |
| CopyScript.BatchTemplateGrows | cdk/cdk-domainless-mode/copy_credspecs_and_create_task_defs.py:157-176 | Through the aliased template, a completed loop of n iterations leaves n more "FARGATE" entries and n more capability attributes in it |
| CopyScript.UploadAndRegister | cdk/cdk-domainless-mode/copy_credspecs_and_create_task_defs.py:136-186 | Uploads, then the registration loop: TypeError exactly when there are iterations but no template was found. A clean run makes max_tasks requests with distinct families, ten containers each, and the execution role as task role. In every request, container j points at the reference of the j-th fully uploaded account. With iterations and a template: a template without containers or fewer than ten fully uploaded accounts gives IndexError, then no role gives NameError, then a template without networkMode, cpu or memory gives KeyError, all before any call |
| CopyScript.CopyCredspecsAndCreateTaskDefs | cdk/cdk-domainless-mode/copy_credspecs_and_create_task_defs.py:73-186 | A failed secret lookup raises before anything else. An empty listing, or one without its key, exits. Nothing is stored or registered unless the lookups succeeded. TypeError means no listed ARN contains the template name. Without an error, exactly the accounts in 1..accounts whose upload did not fail are stored and max_tasks requests are made; when the lookups succeed, the result is the upload-and-register loop over what they found |
| TaskDefs.ExecutionRoleArn | cdk/cdk-domainless-mode/tests/copy_credspecs_and_create_task_defs.py:8-14 | The ARN of the first role whose name equals the execution role name exactly, or None when there is none |
| TaskDefs.TemplateDefinition | cdk/cdk-domainless-mode/tests/copy_credspecs_and_create_task_defs.py:16-23 | The description of the first listed ARN containing the name; None without the key or without a match; a failed description raises |
| TaskDefs.ClusterNameOf | cdk/cdk-domainless-mode/tests/copy_credspecs_and_create_task_defs.py:28 | `arn.split('/')[1]` of prefix + "/" + name is the name |
| TaskDefs.ClusterInfo | cdk/cdk-domainless-mode/tests/copy_credspecs_and_create_task_defs.py:25-32 | The first ARN whose second '/'-piece equals the name exactly, with its first container instance. (None, None) when all ARNs name other clusters. IndexError for an ARN without '/' before the match, or a match without instances |
| TaskDefs.ModifyTaskDefinition | cdk/cdk-domainless-mode/tests/copy_credspecs_and_create_task_defs.py:84-101 | Appends one "FARGATE" and one domainless capability for the cluster. Every container's credentialSpecs becomes exactly the one reference, dropping what was there. Nothing else changes |
| TaskDefs.ModifyNotIdempotent | cdk/cdk-domainless-mode/tests/copy_credspecs_and_create_task_defs.py:84-101 | Modifying twice differs from modifying once: two "FARGATE" entries are appended |
| TaskDefs.ModifiedIsCredentialed | cdk/cdk-domainless-mode/tests/copy_credspecs_and_create_task_defs.py:88-93 | A modified definition passes the run gate exactly when it has a container, and every container carries the credentialSpecs key |
| TaskDefs.RegisterNewTaskDefinition | cdk/cdk-domainless-mode/tests/copy_credspecs_and_create_task_defs.py:103-114 | KeyError exactly when the definition lacks networkMode, cpu or memory. Otherwise the given family, the one role ARN as task and execution role, ["EC2", "FARGATE"], X86_64/LINUX, and network mode, containers, cpu and memory from the definition |
| TaskUpdate.UpdateContainerImages | cdk/cdk-domainless-mode/tests/update_task_def_and_run_tasks.py:37-40 | Count and order kept; only containers named exactly "MyContainer" get the new image; names, credentialSpecs and settings unchanged |
| TaskUpdate.UpdateContainerImagesIdempotent | cdk/cdk-domainless-mode/tests/update_task_def_and_run_tasks.py:37-40 | Updating twice with the same image is updating once |
| TaskUpdate.UpdateKeepsCredentials | cdk/cdk-domainless-mode/tests/update_task_def_and_run_tasks.py:37-40 | The update keeps both credential tests: the run gate's answer and the number of containers with the key |
| TaskUpdate.UpdateTaskDefinitionImage | cdk/cdk-domainless-mode/tests/update_task_def_and_run_tasks.py:25-60 | No repository gives IndexError, a failed description raises ClientError, and a definition without taskRoleArn, executionRoleArn, networkMode, requiresCompatibilities, cpu or memory gives KeyError. Otherwise the register args copy family, roles, network mode, compatibilities, cpu and memory, carry the containers with image repositoryUri + ":" + tag, default volumes and constraints to [], and include tags exactly when present and non-empty |
| TaskUpdate.RunTask | cdk/cdk-domainless-mode/tests/update_task_def_and_run_tasks.py:69-99 | A run request is issued exactly when the definition was described and some container has a non-empty credentialSpecs. It asks for count 1, EC2, the given subnets and one security group. The result is the first task's ARN; a rejected call gives None |
| TaskUpdate.FamilyOf | cdk/cdk-domainless-mode/tests/update_task_def_and_run_tasks.py:108 | The family holds neither '/' nor ':' |
| TaskUpdate.FamilyOfInverse | cdk/cdk-domainless-mode/tests/update_task_def_and_run_tasks.py:108 | For a prefix without '/' and a family without '/' or ':', the ARN prefix + "/" + family + ":" + revision yields the family, whatever the revision holds |
| TaskUpdate.BareFamilyOf | cdk/cdk-domainless-mode/tests/update_task_def_and_run_tasks.py:108 | An ARN prefix + "/" + family without a revision yields the family |
| TaskUpdate.TaskDefinitionFamilies | cdk/cdk-domainless-mode/tests/update_task_def_and_run_tasks.py:101-111 | Over all pages: IndexError exactly when an ARN contains the pattern but no '/'. Otherwise the result has no duplicates and holds exactly the families of ARNs containing the pattern. The only failure is IndexError |
| TaskUpdate.FamiliesOf | cdk/cdk-domainless-mode/tests/update_task_def_and_run_tasks.py:105-111 | The same over the flattened ARN list, as a loop with its invariant |
| TaskUpdate.ProcessFamily | cdk/cdk-domainless-mode/update_task_def_and_run_tasks.py:157-167 | One family's report: a run request only after a registration was sent; an exception ends this family only |
| TaskUpdate.UpdateAndRunScript | cdk/cdk-domainless-mode/update_task_def_and_run_tasks.py:135-169 | Aborts exactly when there is no VPC, subnet or security group, or the family list failed or is empty. Otherwise every family is processed, in order, with the first security group |
| TaskUpdate.RunOnlyWithCredentials | cdk/cdk-domainless-mode/update_task_def_and_run_tasks.py:157-161 | On a platform whose description of a registered revision has exactly the containers it was given, a successful registration is followed by a run request exactly when the family's definition had a non-empty credentialSpecs in some container |
| EndToEnd.BucketExists | cdk/cdk-domainless-mode/tests/run_e2e_test.py:33-50 | A successful head gives true. An error code gives true for 403 and false for any other number. A non-numeric code raises ValueError |
| EndToEnd.BucketExistsNumber | cdk/cdk-domainless-mode/tests/run_e2e_test.py:41-50 | For a numeric code n: exists exactly when n == 403, so 404 and every other code give false |
| EndToEnd.BucketExistsWord | cdk/cdk-domainless-mode/tests/run_e2e_test.py:41 | A code starting with a letter raises ValueError |
| EndToEnd.BucketIsEmpty | cdk/cdk-domainless-mode/tests/run_e2e_test.py:113-133 | True exactly for KeyCount 0, None exactly when the listing raised, false otherwise |
| EndToEnd.PrepareBucket | cdk/cdk-domainless-mode/tests/run_e2e_test.py:300-305 | Stops exactly when the bucket is absent and creation fails. Creates exactly when absent. Empties exactly when not known to be empty |
| EndToEnd.UnknownEmptinessEmpties | cdk/cdk-domainless-mode/tests/run_e2e_test.py:304-305 | A failed emptiness check (None) still empties the bucket |
| EndToEnd.RunStages | cdk/cdk-domainless-mode/tests/run_e2e_test.py:308-328 | The stages run in order, with no `try` around them: if none raises, all run and the run returns; otherwise the run ends with the exception of the last stage started, and every earlier stage raised nothing |
| EndToEnd.RunE2eTest | cdk/cdk-domainless-mode/tests/run_e2e_test.py:299-353 | `run_e2e_test` followed by the module-level clean-up. A raising bucket check ends the run before any stage; a stopped gate returns with no stage and the clean-up runs; after a ready gate, the stages run until the first exception, which skips the remaining stages and the clean-up |
| EndToEnd.BucketCheckRaiseSkipsAll | cdk/cdk-domainless-mode/tests/run_e2e_test.py:300-301 | A non-numeric error code from the bucket check escapes: no stage runs and the clean-up is skipped |
| EndToEnd.AbsentBucketStops | cdk/cdk-domainless-mode/tests/run_e2e_test.py:300-303 | An absent bucket that cannot be created ends `run_e2e_test` before any stage; it returns normally, so the clean-up still runs |
| EndToEnd.RegistrationFailureEndsRun | cdk/cdk-domainless-mode/tests/run_e2e_test.py:312-328 | A registration stage that raises leaves only the secrets and registration stages started; the security-group, update-and-run and SQL stages and the clean-up are skipped |
| EndToEnd.RegistrationErrorEndsRun | cdk/cdk-domainless-mode/tests/run_e2e_test.py:81-111 | A ClientError, IndexError or KeyError escaping `create_and_register_tasks` ends the whole run after that stage, without clean-up |
| EndToEnd.UpdateAbortSkipsSqlTest | cdk/cdk-domainless-mode/tests/run_e2e_test.py:162-186 | No VPC, subnet or security group, or no family, makes the update stage raise ValueError: the SQL test and the clean-up are skipped |
| EndToEnd.CleanRunRunsEverything | cdk/cdk-domainless-mode/tests/run_e2e_test.py:299-353 | When no stage raises, the five stages run in order and the clean-up follows |
| EndToEnd.AccountLocation | cdk/cdk-domainless-mode/tests/run_e2e_test.py:96-101 | Account i's upload location, whose reference is the account reference |
| EndToEnd.RequestIgnoresEarlierModification | cdk/cdk-domainless-mode/tests/run_e2e_test.py:107-110 | Modifying the already modified template gives the same request as modifying the original |
| EndToEnd.AccountRequest | cdk/cdk-domainless-mode/tests/run_e2e_test.py:107-110 | Account i's request succeeds exactly when the template has networkMode, cpu and memory: the modification keeps those keys |
| EndToEnd.ThreadedRequests | cdk/cdk-domainless-mode/tests/run_e2e_test.py:107-110 | For a template with those keys, the requests of the in-place loop equal the requests made from the template as first described |
| EndToEnd.RegisterLoop | cdk/cdk-domainless-mode/tests/run_e2e_test.py:95-111 | Registered accounts are increasing, in range and uploaded. A failed upload skips its account. A failed secret lookup or registration ends the loop with ClientError. A template without the keys the request reads registers nothing, and only such a template gives KeyError. A clean loop registers every uploaded account |
| EndToEnd.SecretFailureAborts | cdk/cdk-domainless-mode/tests/run_e2e_test.py:98 | A failed secret lookup for account i ends the loop with an exception, ClientError when the template has its keys, and no account from i on is registered |
| EndToEnd.MissingKeyAborts | cdk/cdk-domainless-mode/tests/run_e2e_test.py:95-110 | With a template lacking networkMode, cpu or memory, the first uploaded account reached ends the loop with KeyError and no account registered |
| EndToEnd.AccountFamiliesDistinct | cdk/cdk-domainless-mode/tests/run_e2e_test.py:108 | Distinct accounts get distinct families |
| EndToEnd.CreateAndRegisterTasks | cdk/cdk-domainless-mode/tests/run_e2e_test.py:81-111 | Nothing is registered unless role, template and cluster are all present. One request per registered account, families distinct, every container pointing at that account's reference. Errors are ClientError, IndexError or KeyError. When all lookups succeed, the result is exactly the registration loop over the found template, cluster and role |
| EndToEnd.RegisterAccounts | cdk/cdk-domainless-mode/tests/run_e2e_test.py:95-111 | The same facts for the loop alone. KeyError only for a template without the keys the request reads, and then nothing is registered. Without an error, every uploaded account in 1..accounts is registered, and request k is built from the k-th registered account |
| Reconciler.RunningTaskDefinitions | cdk/cdk-domainless-mode/tests/run_e2e_test.py:203-235 | None exactly on a ClientError; otherwise the set of task-definition ARNs of running tasks over all clusters |
| Reconciler.ContainerPass | cdk/cdk-domainless-mode/tests/run_e2e_test.py:270-283 | One deregistration per container with the key, present even if empty; one skip per container without it; deleted counts the successful calls |
| Reconciler.DefinitionPass | cdk/cdk-domainless-mode/tests/run_e2e_test.py:255-283 | Only listed, non-running, described ARNs with a keyed container are deregistered, and deleted counts the successes |
| Reconciler.DefinitionPassSummary | cdk/cdk-domainless-mode/tests/run_e2e_test.py:255-287 | The summary is reached exactly when every non-running ARN could be described. Then skips plus calls equal running ARNs plus inspected containers |
| Reconciler.DeleteUnusedTaskDefinitions | cdk/cdk-domainless-mode/tests/run_e2e_test.py:237-290 | No running set or a failed listing means no call. No ARN key means a summary without calls. Every call targets a listed, non-running, keyed definition. With a running set and an ARN listing, the result is the per-definition pass over the listing, so every listed definition is handled |
| Reconciler.RunningDefinitionSurvives | cdk/cdk-domainless-mode/tests/run_e2e_test.py:256-261 | A definition backing a running task in any cluster is never deregistered |
| Reconciler.UnmanagedDefinitionSurvives | cdk/cdk-domainless-mode/tests/run_e2e_test.py:270-271 | A definition with no credentialSpecs key in any container is never deregistered |
| Reconciler.CallsPerDefinition | cdk/cdk-domainless-mode/tests/run_e2e_test.py:270-278 | On a duplicate-free listing, a non-running definition gets exactly one call per keyed container |
| SqlProbe.MarkerCode | cdk/cdk-domainless-mode/tests/run_sql_test.py:73-74 | `line.split(': ')[1]` on a marker line is the text after the marker up to the next ": " |
| SqlProbe.MarkerVerdict | cdk/cdk-domainless-mode/tests/run_sql_test.py:74-76 | ValueError exactly when the code is not an integer literal; true exactly when it reads as 0 |
| SqlProbe.SqlVerdict | cdk/cdk-domainless-mode/tests/run_sql_test.py:66-77 | No marker line gives false. The first marker line decides. True exactly when that line's code is 0 |
| SqlProbe.RunShellScript | cdk/cdk-domainless-mode/tests/run_sql_test.py:66-83 | A status other than "Success" raises with it; otherwise the verdict of the output's lines |
| SqlProbe.OnlyFirstMarkerCounts | cdk/cdk-domainless-mode/tests/run_sql_test.py:72-77 | Lines before the first marker and every line after it do not matter |
| SqlProbe.MarkerCodeOf | cdk/cdk-domainless-mode/tests/run_sql_test.py:74 | A code without ':' is read back whole, whatever follows a further ": " |
| SqlProbe.EchoedMarker | cdk/cdk-domainless-mode/tests/run_sql_test.py:73-76 | The echoed line "SQL_SUCCESS_MARKER: n" gives true exactly for n == 0 |
| SqlProbe.NonNumericMarkerRaises | cdk/cdk-domainless-mode/tests/run_sql_test.py:74 | A code with a character that is not whitespace, sign or digit raises ValueError |
| SqlProbe.WindowsHostname | cdk/cdk-domainless-mode/tests/run_sql_test.py:121-127 | "Success" with output gives the output without surrounding whitespace; any other status raises |
| SqlProbe.HostnameRoundTrip | cdk/cdk-domainless-mode/tests/run_sql_test.py:121-123 | A name printed with surrounding whitespace comes back exactly |
| SqlProbe.InstanceIdByName | cdk/cdk-domainless-mode/tests/run_sql_test.py:145-149 | The first instance of the first non-empty reservation, or None when every reservation is empty |
| SqlProbe.InstanceIdIsFirstOverall | cdk/cdk-domainless-mode/tests/run_sql_test.py:145-149 | That is the first instance of all reservations in order |
| PyInt.ParseInt | cdk/cdk-domainless-mode/tests/run_sql_test.py:74 | `int(text)` succeeds exactly on an optional sign and ASCII digits once whitespace is stripped; a negative value needs a leading '-' |
| PyInt.ParseIntRoundTrip | cdk/cdk-domainless-mode/tests/run_e2e_test.py:41 | `int(str(n)) == n` for every integer |
| PyInt.ParseIntRejects | cdk/cdk-domainless-mode/tests/run_e2e_test.py:41 | A character that is not whitespace, sign or digit makes `int` raise |
| InboundRules.DirectoryNamed | cdk/cdk-domainless-mode/tests/update_inbound_rules.py:28-32 | The first description whose name equals the configured name exactly, or None when none does |
| InboundRules.InstanceGroup | cdk/cdk-domainless-mode/tests/update_inbound_rules.py:53-65 | The first group of the first instance of the first reservation; None exactly when a level is missing or empty |
| InboundRules.RuleExists | cdk/cdk-domainless-mode/tests/update_inbound_rules.py:72-78 | True exactly when some rule has protocol "-1", ports -1 and -1, and references the directory's group |
| InboundRules.AllTrafficFrom | cdk/cdk-domainless-mode/tests/update_inbound_rules.py:88-93 | The permission asked for: protocol "-1", ports -1, the directory's group as the only pair |
| InboundRules.AddSecurityGroupToInstance | cdk/cdk-domainless-mode/tests/update_inbound_rules.py:23-101 | At most one ingress call. A missing directory or instance group gives False without a call. The call is made exactly when everything was found and no rule exists, and then the result is whether it returned. True without a call means the rule exists. Anything not found gives exactly False with no call; when all is found, the outcome is True without a call if the rule exists and otherwise the one all-traffic ingress call |
| InboundRules.RerunIsIdempotent | cdk/cdk-domainless-mode/tests/update_inbound_rules.py:67-97 | Once the granted rule is in the group's rules, a second run makes no call and returns True |
| InboundRules.ExistingRuleMeansNoCall | cdk/cdk-domainless-mode/tests/update_inbound_rules.py:80-82 | With the rule present the result is True with no call, whatever the ingress call would do |
| Daemon.ParseCredFilePath | daemon/src/daemon.cpp:141-166 | Fails exactly on empty input, leaving the outputs as they were. Without ':' the path is the input and the lease id the default. Otherwise the path holds no ':' and path + ":" + lease id is the input |
| Daemon.ParseCredFilePathInverse | daemon/src/daemon.cpp:150-163 | A path without ':' joined by ":" to any lease id, which may be empty or hold ':', parses back to that path and lease id. A bare non-empty path gets the default |
| Daemon.CredSpecFileStartup | daemon/src/daemon.cpp:192-217 | An unset variable changes nothing. The daemon exits with failure exactly for an empty value. An existing parsed file is taken with its lease id; a missing one keeps the setting and clears the lease id |
| Daemon.StartupWithLease | daemon/src/daemon.cpp:192-217 | "path:lease" gives (path, lease) when the file exists, and the old setting with no lease id otherwise |
| Renewal.MetadataFiles | renewal/src/renewal.cpp:29-43 | At most one file per walked entry |
| Renewal.MetadataFilesMembers | renewal/src/renewal.cpp:29-43 | A path is read exactly when some walked entry is a regular file with a non-empty name containing "_metadata" and the path is its parent + "/" + name |
| Renewal.MetadataFilesAppend | renewal/src/renewal.cpp:29-43 | The filter works entry by entry: the files of two walks in a row are the files of each, in order |
| Renewal.RenewTicket | renewal/src/renewal.cpp:54-101 | No call exactly when the ticket is not eligible: its user is neither empty nor marked, or it is not ready. Otherwise the first call is a fetch, and every call is the fetch or the ticket's fallback |
| Renewal.Attempts | renewal/src/renewal.cpp:65-100 | Every call of the attempt loop is the fetch or the fallback, and each attempt starts with a fetch |
| Renewal.RenewTicketAttempts | renewal/src/renewal.cpp:65-99 | At most two fetches. The second happens exactly when the first fetch succeeded or its fallback failed; a successful fetch is repeated |
| Renewal.FallbackOnlyAfterFailure | renewal/src/renewal.cpp:70-98 | Every fallback follows a fetch of a failed attempt, and the secret vault is used only for a marked user |
| Renewal.Fallback | renewal/src/renewal.cpp:76-88 | The secret vault with the name after the first ':' exactly when the user carries the marker; the machine keytab otherwise; the ticket's domain either way |
| Renewal.ColonPosition | renewal/src/renewal.cpp:79 | -1 exactly when there is no ':'; otherwise the position of the first ':' |
| Renewal.DomainlessUserName | renewal/src/renewal.cpp:79-80 | The whole user without ':'; otherwise the text after the first ':' |
| Renewal.DomainlessUserNameOf | renewal/src/renewal.cpp:79-80 | prefix + ":" + name, prefix without ':', gives back the name, which may hold ':' |
| Renewal.FileCallsSkipsIneligible | renewal/src/renewal.cpp:54-63 | Tickets that are not selected cost no calls |
| Renewal.PassCalls | renewal/src/renewal.cpp:46-49 | A pass throws exactly when reading some metadata file fails |
| Renewal.RenewHandler | renewal/src/renewal.cpp:7-122 | Always returns -1; an empty ticket directory makes no call. As written, the loop tests the by-value copy of the shutdown flag, so the signal does not change the calls |
| Renewal.RenewHandlerIntended | renewal/src/renewal.cpp:7-122 | The corrected handler: returns -1, makes no call for an empty directory, and agrees with the as-written handler when no signal arrives |
| Renewal.SignalIgnoredAsWritten | renewal/src/renewal.cpp:7-19 | As written, with a signal after the rounds `before`, the calls of the rounds after it are still made |
| Renewal.ShutdownEndsLoop | renewal/src/renewal.cpp:19 | As intended, a signal before a round means the handler makes exactly the calls of the rounds before it |
| Renewal.SignalDiscrepancy | renewal/src/renewal.cpp:7-19 | The two handlers differ whenever a round after the signal would make a call |
| Renewal.ExceptionEndsLoop | renewal/src/renewal.cpp:110-119 | After a round that throws, no later round runs |
| Renewal.RoundsAppend | renewal/src/renewal.cpp:19-109 | Without exceptions, the rounds run one after another |
| Renewal.RunRoundsStops | renewal/src/renewal.cpp:110-119 | The same, for any pass function |
| Renewal.RunRoundsAppend | renewal/src/renewal.cpp:19-109 | The same, for any pass function |
| IntegrationTest.GetEnvironmentVar | api/tests/gmsa_api_integration_test.cpp:26-34 | The value unchanged exactly when set; otherwise a runtime error "Environment variable not set: " + name |
| IntegrationTest.AwsSplit | api/tests/gmsa_api_integration_test.cpp:244 | The pieces are exactly the non-empty pieces of the plain split: every piece is non-empty and one of them, and every non-empty one is kept |
| IntegrationTest.FindChar | api/tests/gmsa_api_integration_test.cpp:250 | npos exactly when the character is absent; otherwise its first position |
| IntegrationTest.Substr | api/tests/gmsa_api_integration_test.cpp:251-252 | Exactly count characters from pos when that many remain, otherwise all the rest; a prefix of the rest |
| IntegrationTest.CutResource | api/tests/gmsa_api_integration_test.cpp:250-252 | With a '/', the bucket holds no '/' and bucket + "/" + key is the resource. Without one, `npos + 1` wraps to 0 and bucket and key are both the resource |
| IntegrationTest.ParseS3Arn | api/tests/gmsa_api_integration_test.cpp:241-253 | The same, for the fourth non-empty ':'-piece of the ARN |
| IntegrationTest.ParseS3ArnRoundTrip | api/tests/gmsa_api_integration_test.cpp:241-253 | "arn:aws:s3:::" + b + "/" + k parses to (b, k) when b is non-empty without ':' or '/' and k has no ':' |
| IntegrationTest.ReferenceNamesUploadedObject | api/tests/gmsa_api_integration_test.cpp:241-253 | The ARN in the reference the copy scripts store parses to the uploaded bucket and key |

## Left out

- All AWS and gRPC calls are replaced by their replies, given as inputs: ECS, S3, SSM, EC2, Directory Service, Secrets Manager, IAM and ECR. Pagination is modelled only where the code paginates (`get_task_definition_families`). Elsewhere only the first reply page is read, as in the scripts.
- Remote calls whose failure the scripts do not catch are assumed to return, except where the model takes a failed reply as input: `list_roles`, `list_task_definitions` and `list_clusters`, `list_container_instances` in the copy scripts, `describe_repositories`, and `describe_vpcs`, `describe_subnets`, `describe_security_groups` in the update-and-run stage. A ClientError from any of them is not modelled.
- JSON handling (`json.loads`, `json.dumps`, jsoncpp) is left out. A credential spec is a typed record, and `replace` on the serialised text is `replace` on each string field. The two agree for values without quotes or escapes. A value that breaks the JSON and makes `json.loads` raise is not modelled.
- Python's set-to-list order is unspecified. Families are produced in first-appearance order, and the properties are stated by membership and absence of duplicates.
- Python's `int()` accepts underscores between digits and non-ASCII digits and whitespace. The model accepts ASCII digits and the whitespace `str.strip` removes; the rest is left out.
- Printing, logging, `sleep`, the waiter's polling and timeouts, and `empty_s3_bucket` (its effect is only recorded in the gate) are left out. So are `create_secrets`, `delete_secrets` and the clean-up stage's order.
- In the end-to-end run, whether `create_secrets` and `run_sql_test` raise is an input; the run model only decides what follows from it.
- The renewal thread's sleep and the real directory traversal are left out. A shutdown signal that arrives before the renewal thread copies the daemon is not modelled. The loop runs over a finite list of rounds, each with its walked entries and scripted reader. `is_ticket_ready_for_renewal`, `fetch_gmsa_password_and_create_krb_ticket`, `read_meta_data_json` and both fallback generators are scripted answers.
- `Renewal.ColonPosition` stores the position in an `int`. The `npos` of a missing ':' becomes -1. Positions beyond `INT_MAX` are not modelled.
- `Aws::Utils::StringUtils::Split` is not part of this model. It is assumed to drop empty tokens, which makes the ARN's resource part the fourth piece. Fewer than four pieces would index out of bounds, so four pieces is a precondition of `ParseS3Arn`.
- `DEFAULT_CRED_FILE_LEASE_ID` is defined in a header that is not part of this model; it is a parameter.
- The daemon's threads, signal handlers and watchdog, the gRPC lease scripts, and the remaining glue scripts are left out. The glue scripts are `run_powershell_script.py`, `setup_windows_instance.py`, the top-level `run_sql_test.py` and `update_inbound_rules.py`, `parse_data_from_json.py` and the Java sample.
- Renewal.MetadataFiles: its own contract only bounds the length; what it lists is stated by `MetadataFilesMembers` and `MetadataFilesAppend`.

## Findings

| source | as written | input that shows it | evidently intended | confidence | as-written member | corrected member |
|---|---|---|---|---|---|---|
| renewal/src/renewal.cpp:7-19 | `krb_ticket_renew_handler` takes the `Daemon` by value and loops while the copy's `got_systemd_shutdown_signal` is 0. The signal catcher at daemon/src/daemon.cpp:23 sets only the global daemon's flag, which was cleared before the thread copied it, so the copy never changes | A shutdown signal followed by a round with a ticket ready for renewal: that round still renews | The loop ends at the shutdown signal, and no round after it makes a call | not executed | Renewal.RenewHandler, Renewal.SignalIgnoredAsWritten, Renewal.SignalDiscrepancy | Renewal.RenewHandlerIntended, Renewal.ShutdownEndsLoop |
