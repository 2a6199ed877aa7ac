# gitlab-users in Dafny

A model of the decision logic of `gitlab-users`, a command-line tool that
provisions and retires GitLab accounts from CSV files and lists the
accounts of an instance by activity. Two versions of the tool are covered:

- the current package: the `create-from-csv`, `delete-from-csv` and
  `delete-user` commands of its front end, and the `NewUser`/`OldUser`
  classes and batch loops of its script;
- the earlier single-file script.

The GitLab instance is an abstract directory (`Directory.DirState`). It holds:

- users and groups;
- the group lookups that fail for a reason other than a missing group;
- group memberships;
- the next user id;
- a log of the changes the tool asked for and the instance made.

The connection to it is a class (`Directory.Service`) whose `state` the
tool's calls change. Each batch loop is an imperative method proved equal
to a specification function over `DirState`. The properties the tool
promises are lemmas about those functions:

- a dry run changes nothing;
- an account is deleted only after a "yes";
- creation never deletes;
- deletion only deletes;
- user ids stay fresh and unique.

The console is a sequence of input lines, and running out of lines is
`EOFError`. The clock and `strptime` are parameters.

Modules, one per file:

| module | file | covers |
|---|---|---|
| `Text` | text.dfy | `str.strip`, `lower`, `upper`, `split`, `join`, `str(n)`, `sorted` on strings |
| `Models` | models.dfy | the record values (`str`, `None`, `bool`), `Option`/`Result`, errors, `User`, `Group` |
| `Csv` | csv.dfy | `csv.reader`/`csv.writer` on lines without quotes or line breaks |
| `Utils` | utils.dfy | `get_user_data`, the loaders, the export |
| `Directory` | directory.dfy | the GitLab instance and the service calls |
| `Access` | access.dfy | the `AccessLevel` constants and both `ACCESS_LEVEL` tables |
| `Prompt` | prompt.dfy | `query_yes_no` (identical in both versions) |
| `Listing` | listing.dfy | `_sign_in_date`, `_getactivity`, the `output`/`out_csv` selection, `user_info`, `list_usernames` |
| `Provisioning` | provisioning.dfy | `NewUser`, `OldUser` and the batch loops of the current script |
| `Cli` | cli.dfy | the three commands of the front end |
| `Legacy` | legacy.dfy | the earlier script's loader, `NewUser`, activity listing |

The earlier script's `query_yes_no` and `list_usernames` behave as the
current ones. Its `_sign_in_date` has a single definition, the one the
current script defines first and then shadows, so the earlier `user_info`
and activity listing work where the current ones fail (see "## Findings").
That single definition is `Listing.SignInDate`, and the earlier `user_info`
is `Listing.UserInfo` with `nameOnly` false, since it has no `name_only`
flag.

Outside a dry run (which it does not have), its `OldUser` is the current
one, `Provisioning.DeleteSpec` with `dryRun` false. Its username loader is
`Provisioning.FirstColumns`.

## Model

| member | source | states |
|---|---|---|
| Models.Truthy | src/gitlab_users/cli.py:132-141 | Python truthiness of a record cell: false exactly for `None`, `""` and `False` |
| Models.Show | src/gitlab_users/gitlab_users.py:189 | `str()` of a cell: a string is itself, and the text "None" comes exactly from `None` or the string "None" |
| Models.Get | src/gitlab_users/cli.py:127-130 | `dict.get`: a non-`None` result is the stored value, and `None` comes exactly from a missing key or a stored `None` |
| Utils.GetUserData | src/gitlab_users/utils.py:13-28 | succeeds exactly when the key is present, with the stored value; otherwise a `ValueError` naming the key |
| Utils.ExportLines | src/gitlab_users/utils.py:48-52 | the export writes one header line plus exactly one line per user |
| Utils.ExportRow | src/gitlab_users/utils.py:52 | a user's row is its id as decimal text that reads back as the id, then its username, name, email and state |
| Utils.ExportRoundTrip | src/gitlab_users/utils.py:48-52 | reading the export back gives the header `id,username,name,email,state`, then each user's id, username, name, email and state, in input order |
| Utils.ExportLineRoundTrip | src/gitlab_users/utils.py:51-52 | the line written for the i-th user reads back as that user's five fields |
| Utils.ExportRowRoundTrip | src/gitlab_users/utils.py:52 | one user's written row reads back as its five fields, the id through `str` and back |
| Utils.ExportHeaderRoundTrip | src/gitlab_users/utils.py:50 | the header row reads back as the five column names |
| Utils.NumberIsPlain | src/gitlab_users/utils.py:52 | a rendered id needs no CSV quoting |
| Utils.ZipLongest | src/gitlab_users/utils.py:87 | `zip_longest` gives as many pairs as the longer of the names and the fields |
| Utils.ZipLongestPairs | src/gitlab_users/utils.py:87 | position by position a name pairs with the field below it; past the names the key is `None`, past the fields the value is `None` |
| Utils.DictOf | src/gitlab_users/utils.py:87 | `dict(pairs)` has no more entries than pairs, and the last pair is in it with its value |
| Utils.DictOfKeys | src/gitlab_users/utils.py:87 | `dict(pairs)` has exactly the keys of the pairs |
| Utils.DictOfLast | src/gitlab_users/utils.py:87 | in `dict(pairs)` a key holds the value of its last pair |
| Utils.TrimAll | src/gitlab_users/utils.py:86 | the stripped row keeps its length, so an empty field stays a field |
| Utils.TrimAllFields | src/gitlab_users/utils.py:86 | every field of the row is stripped in place |
| Utils.RowRecordShort | src/gitlab_users/utils.py:75-87 | a row of at most seven fields gives exactly the seven schema keys; missing trailing fields are `None` |
| Utils.RowRecordLong | src/gitlab_users/utils.py:87 | a longer row keeps the seven named fields and adds a `None` key holding the last extra field |
| Utils.ZipLongestKeys | src/gitlab_users/utils.py:75-87 | `dict(zip_longest(fieldnames, row))` has the seven schema keys, plus the `None` key exactly when the row is longer than seven |
| Utils.RowRecord | src/gitlab_users/utils.py:87 | a row's record has the seven schema keys, and the `None` key too exactly when the row has more than seven fields |
| Utils.ParseUserLine | src/gitlab_users/utils.py:85-87 | a non-comment line's record always holds the `username`, `email` and `name` keys that `get_user_data` reads; ParseUserLineFields states every column |
| Utils.ParseUserLineFields | src/gitlab_users/utils.py:85-87 | each schema column of a line's record holds the stripped field the line supplies, or `None` when the line is too short |
| Utils.UsersFromCsvAppend | src/gitlab_users/utils.py:84-88 | the records of two concatenated files are the records of each, in file order |
| Utils.UsersFromCsvLine | src/gitlab_users/utils.py:85-87 | a line starting with `#` gives no record; any other line gives one record |
| Utils.UsersFromCsv | src/gitlab_users/utils.py:84-88 | the loader gives at most one record per line |
| Utils.UsersFromCsvNoComments | src/gitlab_users/utils.py:84-88 | a file without comments gives each line's stripped record, one per line, in file order |
| Utils.UsersFromCsvHaveSchema | src/gitlab_users/utils.py:75-87 | every record read has every schema field, so `get_user_data` on it succeeds |
| Utils.BlankLineRecord | src/gitlab_users/utils.py:85-87 | a blank line yields all seven fields as `None` |
| Utils.ParseWrittenLine | src/gitlab_users/utils.py:85-87 | a line of 2 to 7 stripped, plain fields reads back as those fields, the missing ones `None` |
| Utils.UsernamesFromCsvAppend | src/gitlab_users/utils.py:101-103 | the usernames of two concatenated files are the usernames of each, in order |
| Utils.UsernamesFromCsvLine | src/gitlab_users/utils.py:102-103 | a comment or empty line gives no username; any other line gives its untrimmed first field |
| Utils.UsernamesFromCsv | src/gitlab_users/utils.py:101-103 | at most one username per line; without comments or blank lines, each line's first field in file order |
| Utils.UsernamesSkipBlankLine | src/gitlab_users/utils.py:103 | a blank line between two parts of a file contributes nothing |
| Utils.BlankLineNoUsername | src/gitlab_users/utils.py:103 | a file of one blank line gives no username |
| Csv.ReadRow | src/gitlab_users/utils.py:85 | a non-empty line splits into comma-free fields that join back to the line; only the empty line gives no fields |
| Csv.WriteRow | src/gitlab_users/utils.py:50-52 | fields without commas are written so that splitting the line at commas gives them back |
| Csv.ReadWrittenRow | src/gitlab_users/utils.py:49-52 | a written row of plain fields reads back as the same fields |
| Text.Trim | src/gitlab_users/utils.py:86 | the stripped text is no longer than the input, neither starts nor ends with whitespace, and is the input itself when the input neither starts nor ends with whitespace |
| Text.TrimStrips | src/gitlab_users/utils.py:86 | the stripped text is the slice of the input after the leading characters `lstrip` drops, and every character dropped on either side is whitespace |
| Text.TrimIdempotent | src/gitlab_users/cli.py:164 | stripping twice is stripping once |
| Text.Lower | src/gitlab_users/gitlab_users.py:54 | lower-casing keeps the length and maps each character on its own, capitals to their small letters and anything else to itself, so no capital is left |
| Text.Upper | src/gitlab_users/cli.py:145 | upper-casing keeps the length and maps each character on its own, small letters to their capitals and anything else to itself, so no small letter is left |
| Text.Split | src/gitlab_users/gitlab_users.py:151 | splitting gives at least one part, and no part holds the separator |
| Text.JoinSplit | src/gitlab_users/gitlab_users.py:151 | joining the parts of a split gives the text back |
| Text.SplitJoin | src/gitlab_users/utils.py:52 | splitting joined separator-free fields gives the fields back |
| Text.ParseNatToString | src/gitlab_users/utils.py:52 | reading back `str(n)` gives n |
| Text.SortStrings | src/gitlab_users/gitlab_users.py:206 | `sorted` gives an ascending permutation of its input |
| Text.LexLeTotal | src/gitlab_users/gitlab_users.py:206 | any two strings are ordered one way or the other |
| Text.LexLeTrans | src/gitlab_users/gitlab_users.py:206 | string order is transitive |
| Text.LexLeAntisym | src/gitlab_users/gitlab_users.py:206 | strings ordered both ways are equal |
| Text.SortedPairs | src/gitlab_users/gitlab_users.py:206 | in a sorted list every earlier name is at most every later one |
| Access.LevelOf | src/gitlab_users/cli.py:16-24 | an attribute name has a level exactly when it is one of the six constants, and every level is positive (truthy) |
| Access.LevelsIncrease | src/gitlab_users/cli.py:16-24 | the constants rise strictly from MINIMAL_ACCESS to OWNER |
| Access.ResolveAccessLevel | src/gitlab_users/cli.py:145-148 | a level name resolves, whatever its case, exactly when its upper-case form names a constant, and only to one of the six levels |
| Access.ResolveExamples | src/gitlab_users/cli.py:145-148 | "master" is unknown to the front end; "minimal_access" and "Maintainer" resolve |
| Access.AccessLevelTables | src/gitlab_users/gitlab_users.py:21-28 | the script accepts exactly six names, "master" and "maintainer" at the same level; the earlier table lacks only "maintainer" and agrees elsewhere |
| Prompt.Answer | src/gitlab_users/gitlab_users.py:54-58 | yes/y/ye answer true and no/n false; an empty line answers the default when there is one; anything else does not answer |
| Prompt.Ask | src/gitlab_users/gitlab_users.py:52-60 | a reply consumes between one line and all of them; running out of lines is `EOFError` |
| Prompt.QueryYesNo | src/gitlab_users/gitlab_users.py:42-50 | a default other than none, "yes" or "no" raises `ValueError` before any line is read |
| Prompt.AskYesNo | src/gitlab_users/gitlab_users.py:31-60 | the prompt loop returns what the specification function returns |
| Prompt.AskSound | src/gitlab_users/gitlab_users.py:52-60 | the reply comes from the last line consumed, and every earlier line failed to answer |
| Prompt.AskEof | src/gitlab_users/gitlab_users.py:52-60 | the prompt runs out of input exactly when no line answers |
| Prompt.EmptyAnswerGivesDefault | src/gitlab_users/gitlab_users.py:55-56 | an empty first line returns the default at once |
| Directory.FindUser | src/gitlab_users/services.py:102-105 | no user exactly when none has the username; otherwise a listed user with it |
| Directory.FirstGroup | src/gitlab_users/gitlab_users.py:517 | no group exactly when none has the path or id; otherwise a listed group that has it |
| Directory.GroupGet | src/gitlab_users/gitlab_users.py:516-525 | a found group is listed and has the key; a lookup without another error reports "Group Not Found" exactly when no group has the key |
| Directory.SearchGroups | gitlab_users/gitlab_users.py:341 | the search returns exactly the groups whose name or path contains the text, and no more groups than there are |
| Directory.CreateResult | src/gitlab_users/services.py:66-77 | creation succeeds exactly when the request is accepted; it appends the new active account with the next id, advances the next id, logs the call and changes nothing else; a refusal changes nothing |
| Directory.CreateKeepsWellFormed | src/gitlab_users/services.py:66-77 | creation keeps ids fresh and unique, and the new user is found by its username |
| Directory.FindUserAppend | src/gitlab_users/services.py:102-105 | when a list has no user with the username, users appended after it decide the lookup |
| Directory.WithoutId | src/gitlab_users/services.py:79-87 | the remaining users are exactly those without the id |
| Directory.WithoutIdOrder | src/gitlab_users/services.py:79-87 | removing users keeps ids unique |
| Directory.AfterDelete | src/gitlab_users/services.py:79-87 | a deletion removes exactly that user, logs the call and changes nothing else |
| Directory.DeleteKeepsWellFormed | src/gitlab_users/services.py:79-87 | deletion keeps ids fresh and unique |
| Directory.AfterUpdate | src/gitlab_users/gitlab_users.py:537-539 | saving organization and location logs the call and changes nothing else |
| Directory.AfterAddMember | src/gitlab_users/gitlab_users.py:553-555 | adding a member records the membership, logs the call and changes nothing else |
| Directory.Service.constructor | src/gitlab_users/services.py:17-27 | the connection starts on the given instance |
| Directory.Service.CreateUser | src/gitlab_users/services.py:47-77 | the call makes the state change of `CreateResult` |
| Directory.Service.UpdateUser | src/gitlab_users/gitlab_users.py:537-539 | the call makes the state change of `AfterUpdate` |
| Directory.Service.DeleteUser | src/gitlab_users/services.py:79-87 | the call makes the state change of `AfterDelete` |
| Directory.Service.AddMember | src/gitlab_users/gitlab_users.py:553-555 | the call makes the state change of `AfterAddMember` |
| Listing.SignInDate | src/gitlab_users/gitlab_users.py:139-153 | no date exactly when the user never signed in; otherwise the part of the timestamp before its first "T", or all of it |
| Listing.SignInDateAsWritten | src/gitlab_users/gitlab_users.py:155-158 | the definition that takes effect always fails with `AttributeError` |
| Listing.Classify | src/gitlab_users/gitlab_users.py:270-283 | for each user: never signed in and active is "never"; not active is unlisted; active and signed in is stale exactly when the date is before now minus 365 days; an unparsable date fails |
| Listing.ClassifyAsWritten | src/gitlab_users/gitlab_users.py:270-283 | as written, classifying a user fails exactly when the user signed in (the shadowing `_sign_in_date` at 155-158 raises) or the intended classification fails |
| Listing.ClassifyAsWrittenFails | src/gitlab_users/gitlab_users.py:155-172 | as written, every user who signed in makes the classification fail, although the intended one succeeds |
| Listing.ActivityOf | src/gitlab_users/gitlab_users.py:252-285 | `_getactivity` fails only with `strptime`'s error; "already" is as long as "old" and "active" together, and "already" and "never" together hold no more entries than there are users |
| Listing.GetActivity | src/gitlab_users/gitlab_users.py:252-285 | the loop returns what `ActivityOf` returns |
| Listing.ActivityOfPrefixFailure | src/gitlab_users/gitlab_users.py:270-283 | once a user fails, the whole run fails with that user's error |
| Listing.PickMembers | src/gitlab_users/gitlab_users.py:266-283 | a filtered list holds exactly the listed users of the chosen kinds |
| Listing.ActivityOfFails | src/gitlab_users/gitlab_users.py:270-283 | `_getactivity` fails exactly when some signed-in user's date does not parse |
| Listing.ActivityOfPick | src/gitlab_users/gitlab_users.py:266-285 | each of the four buckets is the users of its kinds, in the order of the listed users |
| Listing.AlreadyIsOldPlusActive | src/gitlab_users/gitlab_users.py:276-281 | the users who signed in are exactly the old ones plus the active ones |
| Listing.ActivityBuckets | src/gitlab_users/gitlab_users.py:274-283 | "already" holds exactly the active users who signed in; "never" exactly the active users who did not |
| Listing.OldAndActiveBuckets | src/gitlab_users/gitlab_users.py:276-281 | "old" and "active" hold active users who signed in, share no user, and together make up "already" |
| Listing.BlockedUserWithBadDate | src/gitlab_users/gitlab_users.py:274-276 | the date is parsed before the state is looked at, so even an inactive user's bad date fails the run |
| Listing.FailureIsBadDate | src/gitlab_users/gitlab_users.py:172 | the only failure is `strptime`'s `ValueError` |
| Listing.Ids | src/gitlab_users/gitlab_users.py:317-328 | the ids of the users, in order |
| Listing.ShownUsers | src/gitlab_users/gitlab_users.py:291-313 | the users a listing shows: all of them without a filter; otherwise the first of "unused", "sign_in", "active" decides, as the stale then never-signed-in users, every active signed-in user, or the recent users, in order; any other flag shows nobody; a bad date fails |
| Listing.CsvSelection | src/gitlab_users/gitlab_users.py:366-385 | without a filter, the ids of all users; with one, once every date parses, the ids of the users last signed in over a year ago then of those never signed in for "unused", of every active signed-in user for "sign_in", of those signed in within the year for "active", and none otherwise, each in listing order; a date that does not parse fails the listing |
| Listing.SelectionMeaning | src/gitlab_users/gitlab_users.py:291-313 | "unused" wins and shows the stale and never-signed-in users; then "sign_in" shows the active users who signed in; then "active" the recent ones |
| Listing.UserInfo | src/gitlab_users/gitlab_users.py:174-195 | `email_only` beats `name_only`; otherwise exactly `@username ` (only with the username flag), then `name <email>`, then ` (date)` (only with the date flag), where the date is the intended `_sign_in_date` text or `None` |
| Listing.UserInfoAsWritten | src/gitlab_users/gitlab_users.py:174-195 | as written, a line fails exactly under the date flag without `email_only` or `name_only`; any other line is the intended `UserInfo` |
| Listing.UserInfoAsWrittenFails | src/gitlab_users/gitlab_users.py:174-195 | as written, every line under the date flag fails with `AttributeError`, because it calls the shadowing `_sign_in_date`; without it the line is the intended one |
| Listing.Infos | src/gitlab_users/gitlab_users.py:296-313 | one info line per user shown, in order |
| Listing.OutputLines | src/gitlab_users/gitlab_users.py:287-315 | without a filter, one line per user; with one, for "unused" the old-sign-in heading, the lines of the users last signed in over a year ago, the never-signed-in heading and their lines; for "sign_in" its heading and every active signed-in user; for "active" the heading counting the users signed in within the year and their lines; nothing otherwise; a bad date fails the listing |
| Listing.Usernames | src/gitlab_users/gitlab_users.py:204 | the usernames of the users, in order |
| Listing.ListUsernames | src/gitlab_users/gitlab_users.py:197-208 | the accumulated message is the text `UsernameListing` gives |
| Listing.UsernameListing | src/gitlab_users/gitlab_users.py:197-208 | the text starts with the header counting every user, and is the header alone when there are none |
| Listing.UsernameListingLines | src/gitlab_users/gitlab_users.py:204-208 | the lines are `Existing usernames (N):` with N all users, then ` - u` per username, ascending, each username exactly once |
| Listing.BulletLines | src/gitlab_users/gitlab_users.py:206-207 | a header followed by `\n - u` bullets splits into the header and one line per name |
| Provisioning.Prepare | src/gitlab_users/gitlab_users.py:479-496 | no group column is `KeyError`; a truthy group with an unknown level is `SystemExit`; otherwise the group columns are moved out, the reset flag added, and nothing else changes |
| Provisioning.CsvRecordPrepare | src/gitlab_users/gitlab_users.py:479-494 | a loaded record either prepares or stops the run with `SystemExit`; it asks for a group exactly when its sixth field is non-empty |
| Provisioning.Pad12 | src/gitlab_users/gitlab_users.py:578 | `{entry:12}` pads to at least twelve characters and keeps the text in front |
| Provisioning.DescribeFields | src/gitlab_users/gitlab_users.py:577-578 | the description succeeds exactly when every field it prints is present |
| Provisioning.Describe | src/gitlab_users/gitlab_users.py:574-584 | `repr` succeeds exactly when the name is a string and the described fields are present; a `None` name is a `TypeError` once the username is found, and a `KeyError` before that; the text starts with the name |
| Provisioning.CheckSpec | src/gitlab_users/gitlab_users.py:498-530 | `_check` passes exactly when no existing user has the username, email or name and the group exists; it raises exactly when the description fails or the group lookup fails other than with "Group Not Found" |
| Provisioning.NewUser.Check | src/gitlab_users/gitlab_users.py:498-530 | the `_check` loop returns what `CheckSpec` returns |
| Provisioning.AddToGroup | src/gitlab_users/gitlab_users.py:542-561 | the account joins the group at its level exactly when the group is found and the level is known; a missing group is `SystemExit`; a failure changes nothing |
| Provisioning.CreateSpec | src/gitlab_users/gitlab_users.py:532-540 | creation leaves groups and memberships alone |
| Provisioning.CreateSpecCalls | src/gitlab_users/gitlab_users.py:532-540 | creation succeeds exactly when the directory accepts the record and it has organization and location; it then logs the create and the update |
| Provisioning.CreateSpecKeepsWellFormed | src/gitlab_users/gitlab_users.py:532-540 | creation keeps ids fresh and unique |
| Provisioning.CreateAccount | src/gitlab_users/gitlab_users.py:532-540 | `_create` makes the calls of `CreateSpec` |
| Provisioning.SaveChecked | src/gitlab_users/gitlab_users.py:566-569 | a save past its check leaves the groups alone |
| Provisioning.SaveSpec | src/gitlab_users/gitlab_users.py:563-572 | a `_check` that raises stops with its error and no change; a `_check` that says no, or a dry run changes nothing |
| Provisioning.SaveCalls | src/gitlab_users/gitlab_users.py:563-572 | a save changes something only when `_check` passes outside a dry run; it then creates, and adds the group only when one is set |
| Provisioning.CheckedSaveCompletes | src/gitlab_users/gitlab_users.py:563-572 | when `_check` passes outside a dry run and the directory accepts the record (`Accepts`), the save passes and appends exactly the new account; without a group the state is `_create`'s; with one whose level has a number, the account is a member of the group the check found, at that level |
| Provisioning.SaveKeepsWellFormed | src/gitlab_users/gitlab_users.py:563-572 | a save keeps ids fresh and unique |
| Provisioning.NewUser.constructor | src/gitlab_users/gitlab_users.py:473-496 | the object keeps the prepared record, its group, the dry-run flag and the users listed at construction |
| Provisioning.NewUser.Save | src/gitlab_users/gitlab_users.py:563-572 | `save` makes the outcome and state change of `SaveSpec` |
| Provisioning.CreateAllSpec | src/gitlab_users/gitlab_users.py:798-803 | an empty batch does nothing |
| Provisioning.CreateAll | src/gitlab_users/gitlab_users.py:798-803 | the loop makes the outcome and state change of `CreateAllSpec` |
| Provisioning.CreateAllDryRun | src/gitlab_users/gitlab_users.py:566-572 | a dry-run batch changes nothing |
| Provisioning.CreateAllAppend | src/gitlab_users/gitlab_users.py:801-803 | a batch of two files is the first, then the second unless the first stopped |
| Provisioning.SaveCheckedAddsNoDeletion | src/gitlab_users/gitlab_users.py:566-569 | creating and joining add no deletion to the log |
| Provisioning.SaveAddsNoDeletion | src/gitlab_users/gitlab_users.py:563-572 | a save adds no deletion to the log |
| Provisioning.CreateAllKeepsWellFormed | src/gitlab_users/gitlab_users.py:798-803 | a creation batch keeps ids fresh and unique |
| Provisioning.CreateAllNeverDeletes | src/gitlab_users/gitlab_users.py:798-803 | a creation batch never deletes an account |
| Provisioning.DeleteSpec | src/gitlab_users/gitlab_users.py:603-620 | a missing user or a dry run reads no line and changes nothing, and no more lines are read than the console holds |
| Provisioning.DeleteNeedsConfirmation | src/gitlab_users/gitlab_users.py:615-616 | the account is deleted only when it exists, outside a dry run, after `query_yes_no` said yes, and in that case it is deleted; the run fails exactly when the prompt runs out of input |
| Provisioning.OldUser.constructor | src/gitlab_users/gitlab_users.py:590-601 | the object keeps the username and flag, and the first user listed under the username, if any |
| Provisioning.OldUser.Delete | src/gitlab_users/gitlab_users.py:603-620 | `delete` makes the outcome and state change of `DeleteSpec` |
| Provisioning.FirstColumns | src/gitlab_users/gitlab_users.py:623-627 | raises `IndexError` exactly when a line is blank; otherwise the same usernames as the package's loader |
| Provisioning.DeleteByName | src/gitlab_users/gitlab_users.py:809-810 | one `OldUser` reads at most the lines there are |
| Provisioning.DeleteAllFrom | src/gitlab_users/gitlab_users.py:805-810 | the loop reads lines forward and never past the end |
| Provisioning.DeleteAllSpec | src/gitlab_users/gitlab_users.py:805-810 | an empty list deletes nothing and reads nothing |
| Provisioning.DeleteOldUser | src/gitlab_users/gitlab_users.py:809-810 | one iteration makes the change of `DeleteByName` |
| Provisioning.DeleteAll | src/gitlab_users/gitlab_users.py:805-810 | the loop makes the outcome and state change of `DeleteAllSpec` |
| Provisioning.DeleteAllFromDryRun | src/gitlab_users/gitlab_users.py:805-810 | a dry run over any names reads no line and changes nothing |
| Provisioning.DeleteAllDryRun | src/gitlab_users/gitlab_users.py:615-620 | a dry-run deletion batch changes nothing |
| Provisioning.DeleteOnlyDeletes | src/gitlab_users/gitlab_users.py:603-620 | `delete` only removes users and logs only deletions |
| Provisioning.DeleteAllFromOnlyDeletes | src/gitlab_users/gitlab_users.py:805-810 | every step of the deletion loop only deletes |
| Provisioning.DeleteByNameOnlyDeletes | src/gitlab_users/gitlab_users.py:590-620 | one `OldUser` only deletes |
| Provisioning.DeleteAllOnlyDeletes | src/gitlab_users/gitlab_users.py:805-810 | a deletion batch only removes users and logs only deletions |
| Cli.UserByUsername | src/gitlab_users/services.py:89-112 | `ValueError` exactly when no user has the username; otherwise a listed user with it |
| Cli.CreateRequest | src/gitlab_users/cli.py:124-139 | the request has username, email, name and the reset flag, and organization and location only when non-empty |
| Cli.JoinGroup | src/gitlab_users/cli.py:141-152 | the account joins the found group at the resolved level exactly when the group is found and the level is a string that resolves; any failure is reported and changes nothing |
| Cli.CreateOne | src/gitlab_users/cli.py:123-152 | a dry run changes nothing, nor does a failure |
| Cli.CreateAndJoin | src/gitlab_users/cli.py:139-152 | a refused creation changes nothing |
| Cli.CreateAndJoinKeepsWellFormed | src/gitlab_users/cli.py:139-152 | creating and joining keep ids fresh and unique |
| Cli.CreateFromCsvSpec | src/gitlab_users/cli.py:121-152 | an empty file does nothing |
| Cli.CreateFromCsv | src/gitlab_users/cli.py:121-152 | the command's loop makes the outcome and state change of `CreateFromCsvSpec` |
| Cli.CreateOneCalls | src/gitlab_users/cli.py:131-152 | a record changes the directory only outside a dry run and when accepted; it creates the account, then joins the group only when group and level are both set and the level resolves |
| Cli.CreateOneCreates | src/gitlab_users/cli.py:139-149 | outside a dry run an accepted record creates its account and passes; without group or level that is all, and with a found group and a resolving level the account joins that group at that level |
| Cli.MissingGroupKeepsAccount | src/gitlab_users/cli.py:141-152 | a failing group lookup is reported, and the created account stays |
| Cli.CreateFromCsvDryRun | src/gitlab_users/cli.py:136-138 | a dry run changes nothing |
| Cli.CreateOneKeepsWellFormed | src/gitlab_users/cli.py:123-152 | each record keeps ids fresh and unique |
| Cli.CreateOneAddsNoDeletion | src/gitlab_users/cli.py:123-152 | a record adds no deletion to the log |
| Cli.CreateFromCsvNeverDeletes | src/gitlab_users/cli.py:121-152 | the command keeps ids fresh and unique and never deletes |
| Cli.DeleteOne | src/gitlab_users/cli.py:155-169 | reads at most one line; fails (`EOFError`) exactly when the user exists, outside a dry run, with no line left |
| Cli.ConfirmAndDelete | src/gitlab_users/cli.py:156-169 | one iteration of the `delete-from-csv` loop makes the outcome and state change of `DeleteOne` |
| Cli.DeleteOneNeedsConfirmation | src/gitlab_users/cli.py:161-169 | an account is deleted only outside a dry run when the stripped, lower-cased answer is "y" or "yes", and such an answer deletes exactly that user |
| Cli.DeleteFrom | src/gitlab_users/cli.py:155-169 | the loop reads lines forward and never past the end |
| Cli.DeleteFromCsvSpec | src/gitlab_users/cli.py:153-169 | an empty file deletes nothing and reads nothing |
| Cli.DeleteFromCsv | src/gitlab_users/cli.py:153-169 | the command's loop makes the outcome and state change of `DeleteFromCsvSpec` |
| Cli.DeleteFromDryRun | src/gitlab_users/cli.py:161-162 | a dry run reads no line and changes nothing |
| Cli.DeleteFromCsvDryRun | src/gitlab_users/cli.py:161-162 | a dry run of the command changes nothing |
| Cli.DeclinedDeletesNothing | src/gitlab_users/cli.py:164-169 | when no answer confirms, nothing is deleted |
| Cli.DeclinedFromDeletesNothing | src/gitlab_users/cli.py:164-169 | from any point of the loop, answers that never confirm delete nothing |
| Cli.DeleteOneOnlyDeletes | src/gitlab_users/cli.py:155-169 | one username only deletes |
| Cli.DeleteFromOnlyDeletes | src/gitlab_users/cli.py:155-169 | every step of the loop only deletes |
| Cli.DeleteFromCsvOnlyDeletes | src/gitlab_users/cli.py:153-169 | the command only removes users and logs only deletions |
| Cli.NoDoesNotConfirm | src/gitlab_users/cli.py:164-165 | the answer "n" does not confirm |
| Cli.Confirms | src/gitlab_users/cli.py:164-165 | an answer confirms exactly when, stripped, it is "y" or "yes" in any mix of cases |
| Cli.LowerYes | src/gitlab_users/cli.py:164-165 | lower-casing gives "y" or "yes" exactly for those words in any mix of cases |
| Cli.DeleteUserAsWritten | src/gitlab_users/cli.py:170-180 | an unknown user or a dry run changes nothing; otherwise the user is deleted without a prompt |
| Cli.DeleteUserAsWrittenIgnoresRefusal | src/gitlab_users/cli.py:176-180 | as written, the user is deleted where the confirmed version, answered "n", deletes nothing |
| Cli.DeleteUser | src/gitlab_users/cli.py:91-94 | with confirmation: reads at most one line, and fails exactly when it must ask and has no line |
| Cli.DeleteUserNeedsYes | src/gitlab_users/cli.py:91-94 | the confirmed command deletes only after a confirming answer, and then exactly as the command as written does |
| Cli.RunDeleteUser | src/gitlab_users/cli.py:91-94 | the corrected command of the `delete-user` finding (cli.py:176-180) makes the outcome and state change of `DeleteUser` |
| Legacy.Zip | gitlab_users/gitlab_users.py:425 | `zip` pairs the names with the fields up to the shorter length |
| Legacy.LegacyRecord | gitlab_users/gitlab_users.py:425 | `dict(zip(fieldnames, row))` never has the `None` key, and a blank line gives `{}` |
| Legacy.LegacyRecordKeys | gitlab_users/gitlab_users.py:420-425 | a record's keys are schema names; a column is present exactly when the row reaches it, holding the raw field |
| Legacy.LegacyRecordDomain | gitlab_users/gitlab_users.py:425 | a column is a key exactly when the row reaches it, and no other key appears |
| Legacy.LegacyRecordFields | gitlab_users/gitlab_users.py:425 | each column the row reaches holds the raw field |
| Legacy.ShortRowHasNoGroup | gitlab_users/gitlab_users.py:282 | a row of fewer than six fields makes `NewUser` fail with `KeyError` |
| Legacy.FullRowsAgree | gitlab_users/gitlab_users.py:417-427 | for seven fields without surrounding spaces the two loaders give the same record |
| Legacy.FullRowRecord | gitlab_users/gitlab_users.py:425 | for exactly seven fields `zip` and `zip_longest` give the same record |
| Legacy.LegacyUsersFromCsv | gitlab_users/gitlab_users.py:417-427 | the earlier loader gives at most one record per line |
| Legacy.LegacyUsersFromCsvNoComments | gitlab_users/gitlab_users.py:417-427 | a file without comments gives each line's untrimmed record, one per line, in file order |
| Legacy.LegacyUsersFromCsvLine | gitlab_users/gitlab_users.py:423-425 | a comment line gives no record; any other line gives the record of its row |
| Legacy.LegacyUsersFromCsvAppend | gitlab_users/gitlab_users.py:423-425 | the records of two concatenated files are the records of each, in file order |
| Legacy.LegacyCheckSpec | gitlab_users/gitlab_users.py:297-326 | `_check` passes exactly when no existing user has the username, email or name and some listed group bears the name |
| Legacy.LegacyNewUser.Check | gitlab_users/gitlab_users.py:297-326 | the `_check` loop returns what `LegacyCheckSpec` returns |
| Legacy.AddToGroupAsWritten | gitlab_users/gitlab_users.py:338-353 | as written, it passes exactly when the search returns one group, that group bears exactly the requested name and the level has a number, and then the account joins that group at that level; a search that is not one exact match stops with "Group <name> not found"; a failure changes nothing |
| Legacy.AmbiguousNameStopsRun | gitlab_users/gitlab_users.py:341-351 | a group whose name is part of another group's name passes `_check`, yet as written the run stops with "Group not found", while the intended version joins it |
| Legacy.FirstNamed | gitlab_users/gitlab_users.py:342 | the first search result bearing exactly the name, if any |
| Legacy.AddToGroup | gitlab_users/gitlab_users.py:338-353 | intended: the account joins the group of the search results that bears exactly the name, at the earlier table's level; a failure changes nothing |
| Legacy.CheckedGroupFound | gitlab_users/gitlab_users.py:315-321 | a group `_check` accepted is found again, and the account joins it |
| Legacy.LegacySaveSpec | gitlab_users/gitlab_users.py:355-363 | a `_check` that raises stops with its error, and one that says no changes nothing |
| Legacy.LegacySaveChecked | gitlab_users/gitlab_users.py:356-359 | a save past its check that passes has created exactly the new account and, for a record with a group, added it to a listed group of that name at its level; groups are never changed |
| Legacy.CheckedSaveCompletes | gitlab_users/gitlab_users.py:355-363 | a passed `_check` on an accepted record passes and appends exactly the new account `NewAccount(st, d)` |
| Legacy.LegacyNewUser.constructor | gitlab_users/gitlab_users.py:278-295 | the object keeps the prepared record, its group and the users listed at construction |
| Legacy.LegacyNewUser.Save | gitlab_users/gitlab_users.py:355-363 | `save` makes the outcome and state change of `LegacySaveSpec` |
| Legacy.LegacyCreateAllSpec | gitlab_users/gitlab_users.py:495-500 | an empty batch does nothing |
| Legacy.LegacyCreateAll | gitlab_users/gitlab_users.py:495-500 | the loop makes the outcome and state change of `LegacyCreateAllSpec` |
| Legacy.LegacySaveKeepsWellFormed | gitlab_users/gitlab_users.py:355-363 | a save keeps ids fresh and unique |
| Legacy.LegacySaveCheckedAddsNoDeletion | gitlab_users/gitlab_users.py:356-359 | creating and joining add no deletion to the log |
| Legacy.LegacySaveAddsNoDeletion | gitlab_users/gitlab_users.py:355-363 | a save adds no deletion to the log |
| Legacy.LegacyCreateAllNeverDeletes | gitlab_users/gitlab_users.py:495-500 | a creation batch keeps ids fresh and unique and never deletes |
| Legacy.LegacyOutputLines | gitlab_users/gitlab_users.py:164-199 | for a display without the `name_only` flag, which the earlier `user_info` lacks: without "active" the earlier listing is the current one; "active" alone, which it does not know, shows nothing |

## Left out

- Connection and configuration loading (`connect_to_gitlab`, `GitLabService.__init__`), the configuration error exits and the argparse dispatch of both entry points are not modelled. This includes the earlier script's swapped constructor arguments. The commands are entered through their loops.
- The python-gitlab client is the abstract `Directory.DirState`. It covers:
  - which creations it accepts: username, email and name given, username and email free;
  - group lookup by path or id;
  - group search by substring of name or path.

  Its internals and its error texts are not modelled.
- The error body of a failed group lookup is an abstract string, compared with "Group Not Found".
- `members.create` is assumed to succeed. In `create-from-csv` its failure would be caught like any other.
- CSV quoting, escaping, `\r\n` handling and multi-line fields are library behaviour. Lines are assumed to hold no quote and no line break (`Csv.PlainLine`). The model does not cover:
  - fields with commas;
  - names the tool would quote;
  - the quoted name column of `csv_user_line`.
- `csv_user_line`, `print_users_csv` rows and their date columns are not modelled: the `_format_date` helper they call is missing from the script. `out_csv` is modelled as the ids it selects (`Listing.CsvSelection`); the header line it prints first is not modelled.
- SSH key export is not modelled: `print_users` with `export_keys`, `get_ssh_key`, and the earlier script's buffer write.
- The group and single-user listings (`GLGroups`, `GLSingleUser`) and the `list-users`, `list-groups`, `export-users` and `export-ssh-keys` commands are not modelled.
- Console output is not modelled except where it carries a decision, such as the listing's lines and the prompt.
- `datetime.now()` and `strptime` are parameters: `now` in seconds and a parser from `YYYY-MM-DD` to a day number. Leap seconds and time zones are not modelled.
- `str.lower`, `str.upper` and `str.strip` are modelled on ASCII letters and Python's whitespace set. Non-ASCII case mappings are not modelled.
- Text.Trim: its own contract states the ends of the stripped text. Text.TrimStrips states which characters are dropped.
- Utils.ZipLongest: its own contract gives only the number of pairs; `Utils.ZipLongestPairs` states each pair. That clause sits in a lemma because on the function every record the loader parses would instantiate it.
- Utils.TrimAll: its own contract states the row's length. Utils.TrimAllFields states that each field is stripped.
- Utils.GetUserData: the `ValueError` carries only the key, not the text of the record.
- Provisioning.CreateSpec: its own contract states only what creation leaves alone. Provisioning.CreateSpecCalls states what it does.
- Provisioning.SaveChecked: its own contract states only that groups are left alone. Provisioning.SaveCheckedAddsNoDeletion and Provisioning.SaveCalls state what it does.
- Provisioning.DeleteSpec: its own contract covers only a missing user and a dry run. Provisioning.DeleteNeedsConfirmation states the rest: the found account is deleted exactly when `query_yes_no` answers yes, nothing else ever changes, and the run fails exactly when the prompt runs out of input.
- Provisioning.DeleteByName: its own contract bounds the lines read. Provisioning.DeleteByNameOnlyDeletes and Provisioning.DeleteNeedsConfirmation state what it does.
- Provisioning.DeleteAllFrom: its own contract bounds the lines read. Provisioning.DeleteAllFromDryRun and Provisioning.DeleteAllFromOnlyDeletes state what it does.
- Cli.DeleteFrom: its own contract bounds the lines read. Cli.DeleteFromDryRun, Cli.DeclinedFromDeletesNothing and Cli.DeleteFromOnlyDeletes state what it does.
- Cli.CreateOne: its own contract states the dry-run and failure cases. Cli.CreateOneCalls, Cli.CreateOneCreates and Cli.MissingGroupKeepsAccount state what it does.
- Cli.CreateAndJoin: its own contract states the failure case. Cli.CreateAndJoinKeepsWellFormed, Cli.CreateOneCalls and Cli.CreateOneCreates state what it does.
- Utils.UsersFromCsv and Legacy.LegacyUsersFromCsv: their own contracts bound the number of records. Utils.UsersFromCsvNoComments, Utils.UsersFromCsvLine, Utils.UsersFromCsvAppend and their earlier-script counterparts state what they read.
- Listing.UsernameListing: its own contract states the header only. Listing.UsernameListingLines states the lines that follow.
- Provisioning.CreateAllSpec, Cli.CreateFromCsvSpec and Legacy.LegacyCreateAllSpec: their own contracts state only the empty batch. The lemmas about dry runs, deletions and well-formedness state what they do.
- The earlier `NewUser.__repr__` layout (line breaks before each field) is not modelled separately. Only whether it raises matters to `_check`, and the current `Provisioning.Describe` states that.

## Findings

| source | as written | input that shows it | evidently intended | confidence | as-written member | corrected member |
|---|---|---|---|---|---|---|
| src/gitlab_users/gitlab_users.py:155-158 | a second `_sign_in_date` replaces the first and calls `_format_date`, which the class does not define | any listing with an activity filter over a user with `current_sign_in_at` set | the first definition: the date before "T" | not executed | Listing.ClassifyAsWrittenFails | Listing.Classify |
| src/gitlab_users/gitlab_users.py:193-194 | under `--sign-in-date`, `user_info` calls the second `_sign_in_date`, which calls the undefined `_format_date` | any user listed with `--sign-in-date` and neither `--email-only` nor `--name-only` | the first definition's date, or `None` | not executed | Listing.UserInfoAsWrittenFails | Listing.UserInfo |
| src/gitlab_users/cli.py:176-180 | `delete-user` deletes the account without asking, although its help says confirmation is required | `delete-user alice` for an existing alice, outside a dry run, with the answer "n" | ask as `delete-from-csv` does and delete only on "y" or "yes" | not executed | Cli.DeleteUserAsWrittenIgnoresRefusal | Cli.DeleteUserNeedsYes |
| gitlab_users/gitlab_users.py:341-342 | `_add_to_group` accepts the search only when it returns a single group, but the search matches substrings of names and paths | groups "dev" and "devops"; a record for group "dev" passes `_check`, the account is created, then the run exits with "Group dev not found" | take the search result bearing exactly the name, the group `_check` found | not executed | Legacy.AmbiguousNameStopsRun | Legacy.CheckedGroupFound |
