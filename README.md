# Beanstalk chat-bot plugin: a verified model

The plugin answers chat commands about a Beanstalk hosting account. Before each
command it takes a snapshot of the account's users and repositories. It then
works only on that snapshot:

- it looks users up by login or id and repositories by name or id, always
  taking the first match;
- it renders a user's or a repository's fields as `key : value` lines;
- it builds a permission report from the records the service returns;
- it validates and pads the arguments of the create-repository command;
- it asks the permission hook for a grant of default permissions on a
  repository, either for one user or for each user in snapshot order. The
  hook itself does nothing. As written, the all-users request raises at the
  first user listed in the `EXCLUDE_USERS` setting, so only the users before
  that one are granted (see "## Findings").

The model is a Dafny class `Plugin.Beanstalk`. Its fields hold the snapshot
and the exclusion list, and its methods are the plugin's loops. Each method
is proved against a specification function in its own module:

- `Directory`: records and the first-match lookups;
- `Fields`: field rendering;
- `Report`: the permission report;
- `Arguments`: create-repository arguments;
- `Assignment`: permission granting;
- `Text`: `str.strip()` and number rendering.

The properties the plugin promises are proved as lemmas over those
functions. The two write hooks do nothing in the plugin. The model keeps a
ghost log of their invocations (`created`, `granted`), so the methods can
state exactly which grants and creations they ask for.

Where the code and its documentation disagree, the model follows the code:

- The get-permissions reply for an unknown login is `The user <login> doesn't exist`, without quotes around the login.
- The all-users permission request returns nothing at all when the repository is unknown. It sends no error text.
- The all-users permission request is meant to skip the users in `EXCLUDE_USERS`. As written, it raises at the first of them (see "## Findings").
- The get-user-data command compares logins exactly (no stripping) and keeps the last matching user.
- That command also reports "does not exist" for a user whose rendering is empty.

## Model

| member | source | states |
|---|---|---|
| Directory.UserByIdIsFirstMatch | beanstalk-api-wrapper.py:40-43 | lookup by id gives the first user with exactly that id, and `None` exactly when no user has it |
| Directory.RepositoryByIdIsFirstMatch | beanstalk-api-wrapper.py:45-48 | lookup by id gives the first repository with exactly that id, and `None` exactly when none has it |
| Directory.UserByIdAt | beanstalk-api-wrapper.py:40-43 | a user at the first position holding an id is what the lookup returns |
| Directory.RepositoryByIdAt | beanstalk-api-wrapper.py:45-48 | a repository at the first position holding an id is what the lookup returns |
| Directory.UserIdByLoginIsFirstMatch | beanstalk-api-wrapper.py:105-109 | lookup by login gives the id of the first user whose stripped login equals the stripped query, and `None` exactly when there is none |
| Directory.RepositoryIdByNameIsFirstMatch | beanstalk-api-wrapper.py:111-115 | the same for repositories by stripped name |
| Directory.UserIdByLoginAt | beanstalk-api-wrapper.py:105-109 | the first user the login names is the one whose id is returned |
| Directory.RepositoryIdByNameAt | beanstalk-api-wrapper.py:111-115 | the first repository the name names is the one whose id is returned |
| Directory.PaddedLoginFindsSameUser | beanstalk-api-wrapper.py:108 | whitespace around the queried login does not change the user found |
| Directory.PaddedNameFindsSameRepository | beanstalk-api-wrapper.py:114 | whitespace around the queried name does not change the repository found |
| Directory.OwnLoginFindsUser | beanstalk-api-wrapper.py:105-109 | with distinct stripped logins, each user's own login finds that user's id |
| Directory.LoginLookupIsCaseSensitive | beanstalk-api-wrapper.py:108 | "Alice" does not find user "alice", while "alice" does |
| Directory.UserById | beanstalk-api-wrapper.py:40-43 | a user found by id has that id |
| Directory.RepositoryById | beanstalk-api-wrapper.py:45-48 | a repository found by id has that id |
| Text.Strip | beanstalk-api-wrapper.py:108 | the result is no longer than the input and neither starts nor ends with whitespace |
| Text.TrimLeftSpec | beanstalk-api-wrapper.py:108 | left trimming keeps a suffix, drops only whitespace, and stops at a non-whitespace character |
| Text.TrimRightSpec | beanstalk-api-wrapper.py:108 | right trimming keeps a prefix, drops only whitespace, and stops at a non-whitespace character |
| Text.StripUnique | beanstalk-api-wrapper.py:108 | any whitespace around a core without edge whitespace strips to exactly that core |
| Text.StripDecompose | beanstalk-api-wrapper.py:108 | every string is its strip with whitespace on either side |
| Text.StripIdempotent | beanstalk-api-wrapper.py:108 | stripping twice is stripping once |
| Text.StripIgnoresPadding | beanstalk-api-wrapper.py:108 | extra whitespace on either side does not change the strip |
| Text.NatToString | beanstalk-api-wrapper.py:164 | an id renders as at least one decimal digit and nothing else |
| Plugin.Beanstalk.GetUserObjectById | beanstalk-api-wrapper.py:40-43 | the scan returns the lookup-by-id result |
| Plugin.Beanstalk.GetRepositoryObjectById | beanstalk-api-wrapper.py:45-48 | the scan returns the lookup-by-id result |
| Plugin.Beanstalk.GetUserId | beanstalk-api-wrapper.py:105-109 | the scan, with the query stripped once, returns the lookup-by-login result |
| Plugin.Beanstalk.GetRepositoryId | beanstalk-api-wrapper.py:111-115 | the scan returns the lookup-by-name result |
| Fields.FieldDataIsVisibleLines | beanstalk-api-wrapper.py:117-131 | the rendered text is one `key : value` line per field whose key is not hidden, in record order |
| Fields.VisibleMembers | beanstalk-api-wrapper.py:117-131 | the fields kept are exactly those with a key that is not hidden, and no more than there were |
| Fields.VisibleAppend | beanstalk-api-wrapper.py:120-122 | filtering keeps the record order |
| Fields.NothingHiddenShowsAll | beanstalk-api-wrapper.py:117-131 | when no key is hidden, every field is rendered |
| Fields.VisibleFieldShown | beanstalk-api-wrapper.py:117-131 | every field with a visible key appears as its own line |
| Fields.UserDataShowsLoginAndId | beanstalk-api-wrapper.py:125-131 | a user's rendering shows its login and id lines |
| Fields.RepositoryDataShowsNameAndId | beanstalk-api-wrapper.py:117-123 | a repository's rendering shows its name and id lines |
| Plugin.Beanstalk.ReturnRepositoryData | beanstalk-api-wrapper.py:117-123 | the loop's text is the rendering with `title` hidden |
| Plugin.Beanstalk.ReturnUserData | beanstalk-api-wrapper.py:125-131 | the loop's text is the rendering with `first_name` and `last_name` hidden |
| Fields.LastExactMatchWins | beanstalk-api-wrapper.py:235-237 | get-user-data shows the fields of the last user whose login is exactly the query |
| Fields.NoExactMatchNoData | beanstalk-api-wrapper.py:235-242 | without an exact login match no data is found |
| Plugin.Beanstalk.GetUserData | beanstalk-api-wrapper.py:229-242 | the reply is the last exact match's fields, or `The user '<login>' does not exist` when that text is empty |
| Plugin.Beanstalk.ReportRecord | beanstalk-api-wrapper.py:66-74 | one record moves each cursor only when its id differs, adds a header only when the user changes, and then adds one repository line; the cursors stay equal to fresh lookups |
| Plugin.Beanstalk.ReportGroup | beanstalk-api-wrapper.py:66-74 | one group's text is the report of its records, continuing from the previous record's user |
| Plugin.Beanstalk.ParsePermissions | beanstalk-api-wrapper.py:60-76 | with cursors carried across groups, the output is the report of all records in order, each resolved afresh by id (the repository cursor only caches); no records give the empty text |
| Report.ReportAppend | beanstalk-api-wrapper.py:65-74 | the report of a concatenation is the first part's report followed by the second part's, continuing from the first part's last user |
| Report.ReportStepFrom | beanstalk-api-wrapper.py:66-74 | one more record adds exactly its entry, and its user becomes the last one seen |
| Report.LastUserAppend | beanstalk-api-wrapper.py:70-71 | the user cursor after two parts is the cursor after the second, started from the first |
| Report.FlattenAppend | beanstalk-api-wrapper.py:65-66 | records are walked group after group |
| Report.FlattenIndex | beanstalk-api-wrapper.py:65-66 | record `j` of group `g` comes right after all records of the earlier groups |
| Report.SameUserRun | beanstalk-api-wrapper.py:70-74 | a run of one user's records gets at most one header, in front, and only if the previous record was another user's |
| Report.LastUserBeforeGroup | beanstalk-api-wrapper.py:65-71 | with per-user groups and distinct users, the user cursor before a group never already holds that group's user |
| Report.GroupedReport | beanstalk-api-wrapper.py:60-76 | with per-user groups and distinct users, the report is one section per non-empty group: its user's header once, then its lines |
| Report.PermissionGroups | beanstalk-api-wrapper.py:53-58 | one group per snapshot user, in order, holding the records the service returns for that user |
| Report.AllUsersReportIsSections | beanstalk-api-wrapper.py:272-286 | with unique ids and each user's records being that user's own, the all-users report is one section per user |
| Report.TwoRecordExample | beanstalk-api-wrapper.py:72-74 | two records of one user give one `\nUser: A B\n` header and two `Repository:` lines |
| Report.ExampleLineA | beanstalk-api-wrapper.py:74 | the exact text of a repository line, with `True`/`False` for the permission flags |
| Report.ExampleLineB | beanstalk-api-wrapper.py:74 | the same for the opposite flags |
| Plugin.Beanstalk.GetAllPermissions | beanstalk-api-wrapper.py:53-58 | the loop collects each user's records, in snapshot order |
| Plugin.Beanstalk.GetPermissions | beanstalk-api-wrapper.py:272-286 | one argument: the report for that login's user, or `The user <login> doesn't exist`; any other count: the report for all users |
| Arguments.ParseCreateRepositoryArguments | beanstalk-api-wrapper.py:133-157 | `Valid` exactly when every argument passes its check; otherwise the first failing position, and only positions 2 (colour) and 3 (system) are checked |
| Arguments.ColorCheckedBeforeVcs | beanstalk-api-wrapper.py:151-156 | a bad colour is reported even when the system is bad too; a bad system only when the colour is good |
| Arguments.PadArguments | beanstalk-api-wrapper.py:190-195 | the list is padded to at least four arguments; supplied arguments are kept; the title defaults to the name, the colour to `white`, the system to `git` |
| Arguments.PaddingKeepsVerdict | beanstalk-api-wrapper.py:190-197 | the defaults always pass, so padding never changes the verdict |
| Arguments.NameOnlyIsAccepted | beanstalk-api-wrapper.py:190-199 | a call with only a name is padded to `[name, name, white, git]` and accepted |
| Arguments.UnknownColorReply | beanstalk-api-wrapper.py:202-203 | an unknown colour is refused with `'<colour>' is not a valid Label-color` |
| Arguments.UnknownVcsReply | beanstalk-api-wrapper.py:202-203 | an unknown system with a good colour is refused with `'<system>' is not a valid Vcs` |
| Plugin.Beanstalk.CreateRepository | beanstalk-api-wrapper.py:184-203 | the caller's list is padded in place; the reply is the confirmation or the first error; the creation hook is invoked, once, exactly when the padded list is valid |
| Assignment.GrantOnlyWhenResolvedAndNotExcluded | beanstalk-api-wrapper.py:170-177 | the hook is asked for, at most once, exactly when repository and user resolve and the login is not excluded; it then gets the resolved ids and the reply confirms it |
| Assignment.SingleUserFailureReplies | beanstalk-api-wrapper.py:178-182 | an unknown repository is reported before an unknown user; no reply exactly when both resolve and the login is excluded |
| Assignment.NoReplyNoGrant | beanstalk-api-wrapper.py:175-182 | a single-user request without a reply asks for no grant |
| Plugin.Beanstalk.SetPermissionsSingleUser | beanstalk-api-wrapper.py:170-182 | the method's reply and the grants it logs are the single-user specification's |
| Assignment.OwnLoginResolves | beanstalk-api-wrapper.py:165-167 | each snapshot user's own login resolves |
| Assignment.OutcomeAt | beanstalk-api-wrapper.py:165-167 | the all-users loop's `i`-th step is user `i`'s single-user request under its own login |
| Assignment.NoReplyExactlyWhenExcluded | beanstalk-api-wrapper.py:165-182 | for a known repository, a user's step has no reply exactly when that user's login is excluded |
| Assignment.AsWrittenStep | beanstalk-api-wrapper.py:166-167 | a step with a reply appends it and its grants; a step without one raises, keeping the grants so far |
| Assignment.CrashIsFinal | beanstalk-api-wrapper.py:167 | after the loop has raised, later users change nothing |
| Assignment.AsWrittenProgressFacts | beanstalk-api-wrapper.py:164-168 | before the first missing reply the loop matches the skipping loop; from it on, it has raised with the grants made before it |
| Assignment.AsWrittenCrashesOnExcludedUser | beanstalk-api-wrapper.py:159-168 | as written, the all-users request raises `TypeError` whenever any snapshot user is excluded and the repository is known |
| Assignment.AsWrittenAgreesWithoutExclusions | beanstalk-api-wrapper.py:159-168 | with no excluded user in the snapshot, the code as written and the corrected version give the same reply |
| Assignment.UnknownRepositoryStopsAllUsers | beanstalk-api-wrapper.py:161-163 | an unknown repository gives no reply and no user is processed: neither version asks for any grant |
| Assignment.SkippingStep | beanstalk-api-wrapper.py:166-167 | a corrected step appends its reply, if any, and its grants |
| Assignment.OutcomeOfUser | beanstalk-api-wrapper.py:165-177 | with unique logins, a user's step grants to that user's id exactly when the user is not excluded |
| Assignment.GrantsOfIncluded | beanstalk-api-wrapper.py:165-177 | over steps granting to distinct ids, an id is granted exactly when its step grants |
| Assignment.SkippingGrantsExactlyTheIncluded | beanstalk-api-wrapper.py:159-177 | the corrected all-users request grants to each snapshot user exactly when that user is not excluded |
| Plugin.Beanstalk.SetPermissionsForUser | beanstalk-api-wrapper.py:166-167 | one loop step's reply and grants are that user's outcome |
| Plugin.Beanstalk.AppendRepliesAsWritten | beanstalk-api-wrapper.py:165-167 | the loop as written: the text accumulated so far, or a raise, with the grants of the steps before the raise |
| Plugin.Beanstalk.SetPermissionsAllUsers | beanstalk-api-wrapper.py:159-168 | the method's reply and grants are the as-written specification's |
| Plugin.Beanstalk.AppendRepliesSkipping | beanstalk-api-wrapper.py:165-167 | the corrected loop: every reply except the missing ones, with all grants |
| Plugin.Beanstalk.SetPermissionsAllUsersSkippingExcluded | beanstalk-api-wrapper.py:159-168 | the method's reply and grants are the corrected specification's |
| Plugin.Beanstalk.SetPermissions | beanstalk-api-wrapper.py:259-270 | one argument: the all-users request as written, which raises at the first excluded user; two: the single-user request, with no reply as nothing; any other count: no reply and no grant |
| Plugin.Beanstalk.SetPermissionsSkippingExcluded | beanstalk-api-wrapper.py:259-270 | the command with the corrected all-users request: one argument grants to every user that is not excluded and raises for none; two and other counts as in the command as written |
| Plugin.Beanstalk.Prepare | beanstalk-api-wrapper.py:88-93 | the snapshot becomes what the service listed |
| Arguments.IsValidLabelColor | beanstalk-api-wrapper.py:133-138 | definition: a label colour is accepted exactly when it is one of white, red, orange, yellow, green, blue, pink and grey |
| Arguments.IsValidVcs | beanstalk-api-wrapper.py:140-145 | definition: a version-control system is accepted exactly when it is svn, git or mercurial |
| Arguments.CreateRepositoryReply | beanstalk-api-wrapper.py:197-203 | definition: the confirmation lists the four labelled arguments when they are valid; otherwise the reply quotes the offending argument and names its label; `UnknownColorReply` and `UnknownVcsReply` state the error texts |
| Assignment.SingleUserReply | beanstalk-api-wrapper.py:170-182 | definition: a confirmation when both names resolve and the login is not excluded; otherwise the repository error, then the user error, and `None` for an excluded user; `GrantOnlyWhenResolvedAndNotExcluded` and `SingleUserFailureReplies` state its cases |
| Assignment.SingleUserGrants | beanstalk-api-wrapper.py:175-176 | definition: the one grant the single-user request asks for when both names resolve and the login is not excluded; `GrantOnlyWhenResolvedAndNotExcluded` states it |
| Assignment.AllUsersAsWritten | beanstalk-api-wrapper.py:159-168 | definition: no reply for an unknown repository, otherwise the header followed by each user's reply, raising at the first missing one; `AsWrittenCrashesOnExcludedUser` states when it raises |
| Assignment.AsWrittenGrants | beanstalk-api-wrapper.py:159-168 | definition: the grants the code as written asks for before it raises; `AsWrittenProgressFacts` states which they are |
| Assignment.AllUsersSkippingExcluded | beanstalk-api-wrapper.py:159-168 | definition: the corrected request, in which users without a reply are skipped; `AsWrittenAgreesWithoutExclusions` relates it to the code as written |
| Assignment.SkippingGrants | beanstalk-api-wrapper.py:159-168 | definition: the grants the corrected request asks for; `SkippingGrantsExactlyTheIncluded` states which they are |
| Fields.FieldData | beanstalk-api-wrapper.py:117-131 | definition: the rendering loop's text, one `key : value` line per field whose key is not hidden; `FieldDataIsVisibleLines` states its meaning |
| Fields.UserDataFor | beanstalk-api-wrapper.py:233-237 | definition: the rendering of the last user whose login equals the query exactly; `LastExactMatchWins` and `NoExactMatchNoData` state it |
| Report.Entry | beanstalk-api-wrapper.py:67-74 | definition: one record's text, a user header when the user changes and then the repository line |
| Report.ReportFrom | beanstalk-api-wrapper.py:65-74 | definition: the entries of the records in order, each entry continuing from the previous record's user; `ReportAppend` and `ReportStepFrom` state how it composes |
| Report.PermissionReport | beanstalk-api-wrapper.py:60-76 | definition: the report of a sequence of records, starting with no current user; `GroupedReport` states its shape |
| Directory.UserIdByLogin | beanstalk-api-wrapper.py:105-109 | definition: the scan by stripped login; `UserIdByLoginIsFirstMatch` states its meaning |
| Directory.RepositoryIdByName | beanstalk-api-wrapper.py:111-115 | definition: the scan by stripped name; `RepositoryIdByNameIsFirstMatch` states its meaning |
| Plugin.Beanstalk.CreateRepositoryHook | beanstalk-api-wrapper.py:95-98 | the creation hook does nothing; its call is appended to the `created` log |
| Plugin.Beanstalk.SetPermissionsHook | beanstalk-api-wrapper.py:100-103 | the permission hook does nothing; its call is appended to the `granted` log |

## Left out

- Network calls are not modelled. This covers `beanstalk_api.setup`, `api.user.find`, `api.repository.find` and `api.permission.find`, and with them `_connect_to_beanstalk`, `_get_all_users`, `_get_all_repositories` and `_get_single_user_permissions`. `Prepare` receives the listed users and repositories, and the permission query is the parameter `find`.
- The chat framework is not modelled: `BotPlugin`, `@botcmd`, `activate`, the configuration template, logging and message delivery. Commands receive their arguments already split. Splitting on `' '` always yields at least one argument, which is why `CreateRepository` requires one.
- Each command begins with `_prepare()`, a network refresh. The model's commands act on the snapshot the last `Prepare` left.
- `beanstalk_list_users`, `beanstalk_list_repositories` and `beanstalk_get_repository_data` are not modelled. They are the same rendering loops as those modelled, and are outside the modelled core.
- The write hooks `_create_repository` and `_beanstalk_repository_set_permissions` do nothing. They appear only as ghost logs of their calls. The creation hook's `(args, args)` call is logged as the argument list.
- Record values are held as already-rendered strings, in the order the service returned them. Python dictionary ordering and `str.format` of arbitrary values are not modelled. Booleans render as `True`/`False` and ids in decimal.
- `str.strip()` is modelled for the six ASCII whitespace characters of Python 2 byte strings. Unicode whitespace is not considered.
- `_get_single_user_permissions` wraps the service's answer for one user in a one-element list, which `_parse_permissions` unwraps with `[0]`. The model passes the record groups unwrapped.
- Plugin.Beanstalk.ParsePermissions: requires every record's user id and repository id to resolve. The code fails on a `None` subscript otherwise, and that failure is not modelled. `Report.HeaderFor` and `Report.LineFor` render an unresolved id as empty text only so that the report functions are total; the commands never reach that case.
- Plugin.Beanstalk.GetPermissions: with one argument that names a user, requires that user's records to resolve; with any other count, requires every user's records to resolve. These are the records the code parses, and it fails on a `None` subscript when one of them does not resolve.
- The snapshot is not required to be well formed. Lookups read a record's `login`, `name` and `id` parts, while rendering reads its `fields`. `Directory.WellFormedUser` and `Directory.WellFormedRepository` state when the two agree, as they do for records from the service. Only the lemmas about which lines a rendering shows assume them.

## Findings

| source | as written | input that shows it | evidently intended | confidence | as-written member | corrected member |
|---|---|---|---|---|---|---|
| beanstalk-api-wrapper.py:165-167 | every user's single-user reply is appended with `+=`, but an excluded user that resolves gets `None`, and `str += None` raises `TypeError` | a known repository and a snapshot containing a user whose login is in `EXCLUDE_USERS` | excluded users are skipped: no grant and no text for them, and everyone else gets a grant | not executed | Assignment.AsWrittenCrashesOnExcludedUser | Assignment.SkippingGrantsExactlyTheIncluded |
