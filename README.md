# pfSense user manager and captive portal allowed hostnames, modelled in Dafny

This project models two pfSense web pages as operations on typed configuration records.

1. **The user manager page.** It models the POST handling of `system_usermanager.php`:
   - the read-only gate;
   - deleting one user (`deluser`) and deleting a selection of users (`dellall`);
   - dropping a certificate reference (`delcert`) or a privilege (`delprivid`) from a user;
   - saving a user.

   The save has four parts:
   - the ordered validation chain;
   - the field rules that build the stored record;
   - uid assignment from `system/nextuid` and membership of the first `all` group;
   - the final `usort` by name.

   The numbering of the privilege table's delete links is modelled as well.
2. **The captive portal allowed-hostname editor.** It models `services_captiveportal_hostname_edit.php`:
   - the zone guard;
   - validation of a posted entry, including the uniqueness loop that skips the edited entry;
   - the upsert into the zone's list;
   - the sort with `allowedhostnamescmp`;
   - `build_dir_list`.

The configuration is held in two classes whose fields the operations reassign:
- `UserDatabase` holds the users, the groups, the uid counter, the certificate refids, the two error lists, and a count of configuration writes.
- `PortalConfig` holds each zone's list of allowed hostnames and a write count.

Each loop of the pages is a method with loop invariants, proved against a specification function:
- the bulk-delete `foreach`;
- the uniqueness and reserved-name `foreach`;
- the group lookups;
- the walk over the groups looking for `all`;
- the privilege counter;
- the duplicate-hostname `foreach`.

PHP value semantics are spelled out in module `Php`:
- an unset key is `None`;
- truthiness: only `""` and `"0"` are falsy strings;
- `strcmp` as a three-way comparison;
- `strlen` counts UTF-8 bytes;
- `strtolower` is ASCII-only;
- `htmlspecialchars`.

Calls into code outside the two pages are parameters: records of functions (`Validators`, `HostLib`), the system account names, the session user, the read-only flag, and the refid of a new certificate.

Modules and files:
- `php.dfy`: `Php`, the PHP value semantics.
- `sorting.dfy`: `Sorting`, `usort` with a string-key `strcmp` comparator, as a stable insertion sort.
- `user_config.dfy`: `UserConfig`, the user and group records, deletion with `array_values` compaction, joining `all`, sorting by name.
- `user_validation.dfy`: `UserValidation`, the save validation chain.
- `user_manager.dfy`: `UserManager`, the page's POST branches and the `UserDatabase` class.
- `hostnames.dfy`: `CaptivePortalHostnames`, the hostname editor and the `PortalConfig` class.

## Model

| member | source | states |
|---|---|---|
| Php.Strcmp | src/usr/local/www/system_usermanager.php:498-500 | The result is -1, 0 or 1, and it is 0 exactly when the strings are equal. |
| Php.StrcmpAntisymmetric | src/usr/local/www/system_usermanager.php:498-500 | Swapping the arguments negates the result. |
| Php.StrLeqTransitive | src/usr/local/www/system_usermanager.php:498-500 | The order strcmp induces is transitive, so usort with it is well defined. |
| Php.Utf8LengthBounds | src/usr/local/www/system_usermanager.php:240 | strlen, the UTF-8 byte count, lies between the character count and four times it. |
| Php.Utf8Length | src/usr/local/www/system_usermanager.php:240 | Definition of strlen on a string: the sum of each character's UTF-8 byte count. Its partners are Utf8LengthBounds and AsciiLength. |
| Php.AsciiLength | src/usr/local/www/system_usermanager.php:240 | For an all-ASCII string, strlen equals the character count. |
| Php.AsciiLower | src/usr/local/www/services_captiveportal_hostname_edit.php:52 | strtolower keeps the length, maps each character to its lowercase and leaves no uppercase letter. |
| Php.HtmlSpecialChars | src/usr/local/www/services_captiveportal_hostname_edit.php:52 | The result contains no `<`, `>`, `"` or `'`; it is empty exactly when the input is; a string without markup characters is unchanged. |
| Sorting.SortBy | src/usr/local/www/system_usermanager.php:497-501 | usort's result is ordered by the key (every element sorts at or before every later one) and has the input's length. |
| Sorting.SortByPermutes | src/usr/local/www/system_usermanager.php:497-501 | usort's result is a permutation of its input (equal multisets). |
| Sorting.SortByKeepsElements | src/usr/local/www/system_usermanager.php:497-501 | An element is in the sorted list exactly when it is in the input. |
| Sorting.InsertDistinct | src/usr/local/www/system_usermanager.php:497-501 | Inserting an element whose value of a projection differs from every element's keeps the projected values distinct. |
| Sorting.SortByDistinct | src/usr/local/www/system_usermanager.php:497-501 | Sorting keeps distinct projected values distinct, so usort cannot create a duplicate name or hostname. |
| UserConfig.WithoutIsKept | src/usr/local/www/system_usermanager.php:156-174 | Unsetting indices and then reindexing keeps exactly the entries at the indices not removed, in their original order: the k-th survivor is the entry at the k-th kept index. |
| UserConfig.KeptIndices | src/usr/local/www/system_usermanager.php:156-174 | The kept indices increase strictly, and an index is kept exactly when it is in range and not removed. |
| UserConfig.Without | src/usr/local/www/system_usermanager.php:156-174 | Definition of the list after unsetting a set of indices and reindexing; the result is no longer than the input. WithoutIsKept and WithoutElements characterise it. |
| UserConfig.WithoutOne | src/usr/local/www/system_usermanager.php:122-124 | Removing one index yields the list up to it followed by the list after it. |
| UserConfig.WithoutKeepsOrder | src/usr/local/www/system_usermanager.php:156-174 | Deleting entries keeps a name-sorted list sorted. |
| UserConfig.WithoutKeepsDistinct | src/usr/local/www/system_usermanager.php:156-174 | Deleting entries keeps the user names distinct. |
| UserConfig.CompactSlots | src/usr/local/www/system_usermanager.php:156-174 | array_values applied after the unsets gives the list without the removed indices. |
| UserConfig.Compact | src/usr/local/www/system_usermanager.php:174 | Definition of array_values on the list with holes: the present entries in order. CompactSlots equates it with Without. |
| UserConfig.FirstAll | src/usr/local/www/system_usermanager.php:481-489 | The index found is the first group named `all`, or the length when there is none. |
| UserConfig.WithAllMember | src/usr/local/www/system_usermanager.php:480-491 | Definition of the groups after the uid joins the first `all` group. WithAllMemberSpec states its effect. |
| UserConfig.WithAllMemberSpec | src/usr/local/www/system_usermanager.php:480-491 | The first `all` group gets the uid appended (to an empty list when it had none), every other group is unchanged, and with no `all` group nothing changes. |
| UserConfig.SortByName | src/usr/local/www/system_usermanager.php:496-501 | The users are sorted by strcmp of their names, and none is gained or lost in number. |
| UserConfig.SortByNamePermutes | src/usr/local/www/system_usermanager.php:496-501 | Sorting by name is a permutation of the users. |
| UserConfig.SortByNameKeepsUids | src/usr/local/www/system_usermanager.php:496-501 | Sorting keeps every uid below the counter. |
| UserConfig.SortByNameDistinct | src/usr/local/www/system_usermanager.php:496-501 | Sorting by name keeps the user names distinct. |
| UserConfig.ReplaceDistinct | src/usr/local/www/system_usermanager.php:263-272 | Replacing an entry by one that keeps its name, or takes a name no user has, keeps the names distinct. |
| UserConfig.AppendDistinct | src/usr/local/www/system_usermanager.php:263-272 | Appending a user whose name no user has keeps the names distinct. |
| UserValidation.RequiredErrors | src/usr/local/www/system_usermanager.php:213-234 | At most one error per listed field; every error is a "required" error. |
| UserValidation.RequiredIff | src/usr/local/www/system_usermanager.php:213-234 | A field is reported as required exactly when the request must fill it and it is absent or empty. When editing, that is the username; when creating, also the password; with a certificate requested, also the descriptive name, CA, key length and lifetime. |
| UserValidation.GroupErrorsCount | src/usr/local/www/system_usermanager.php:255-261 | One "invalid group" error per submitted group the lookup does not find. |
| UserValidation.CheckGroups | src/usr/local/www/system_usermanager.php:255-261 | The foreach over posted groups computes exactly the group errors. |
| UserValidation.FindClash | src/usr/local/www/system_usermanager.php:266-271 | The foreach with break finds a clash exactly when some name equals the submitted one and the old name differs. |
| UserValidation.CheckFields | src/usr/local/www/system_usermanager.php:213-261 | The checks before uniqueness produce the early error segment, in source order. |
| UserValidation.CheckLate | src/usr/local/www/system_usermanager.php:293-313 | The expiry, CA and web GUI checks produce the late segment. The expiry is rewritten only when DateTime parses it. |
| UserValidation.ValidateSave | src/usr/local/www/system_usermanager.php:207-314 | The save's error list is the whole chain: the early errors; then the uniqueness error, only with no early error; then the reserved-name error, only with neither before; then the late errors. Also returns the rewritten expiry. |
| UserValidation.SaveErrors | src/usr/local/www/system_usermanager.php:207-314 | Definition of the save's error list: the early errors, the gated uniqueness and reserved errors, then the late errors. ChainRules, UniquenessRules, ReservedRules, RequiredIff and the other Iff lemmas state what it contains. |
| UserValidation.EarlyErrors | src/usr/local/www/system_usermanager.php:213-261 | Definition of the errors before the uniqueness check, in page order: required fields, charset, length, password mismatch, PSK, password policy, groups. EarlyMembers lists what can occur in it. |
| UserValidation.LateErrors | src/usr/local/www/system_usermanager.php:293-313 | Definition of the errors after the reserved-name check: expiry, CA, then the web GUI checks. LateMembers lists what can occur in it. |
| UserValidation.Chain | src/usr/local/www/system_usermanager.php:263-283 | Definition of how the segments are joined: uniqueness only with no early error, reserved only with neither. ChainRules is its partner. |
| UserValidation.InvalidCharsIff | src/usr/local/www/system_usermanager.php:236-238 | The charset error is raised exactly when the name has a character outside `[a-zA-Z0-9._-]`. |
| UserValidation.TooLongIff | src/usr/local/www/system_usermanager.php:240-242 | The length error is raised exactly when strlen of the name exceeds 32. |
| UserValidation.ValidNameLength | src/usr/local/www/system_usermanager.php:236-242 | For a name of allowed characters, strlen is the character count. |
| UserValidation.BothUsernameErrors | src/usr/local/www/system_usermanager.php:236-242 | There is a submission that raises both the charset and the length error. |
| UserValidation.PasswordMismatchIff | src/usr/local/www/system_usermanager.php:244-246 | The mismatch error is raised exactly when the first password is truthy and differs from the second. |
| UserValidation.InvalidPskIff | src/usr/local/www/system_usermanager.php:248-250 | The PSK error is raised exactly when a PSK is posted that is not all ASCII. |
| UserValidation.ChainRules | src/usr/local/www/system_usermanager.php:263-283 | Joining the segments adds each gated error at most once. The uniqueness error appears exactly when there is no early error and the name is taken. The reserved error appears exactly when there is no early error, the name is not taken, and it is reserved. |
| UserValidation.UniquenessRules | src/usr/local/www/system_usermanager.php:263-272 | At most one uniqueness error. It is raised exactly when there is no earlier error, some stored user has the submitted name, and the old name differs. |
| UserValidation.ReservedRules | src/usr/local/www/system_usermanager.php:273-283 | At most one reserved-name error. It is raised exactly when there is no earlier error and no uniqueness error, a system account has the name, and the old name differs. |
| UserValidation.KeepingNameNeverClashes | src/usr/local/www/system_usermanager.php:263-283 | Saving an entry under its unchanged name never raises the uniqueness or the reserved error. |
| UserValidation.CleanSubmissionAccepted | src/usr/local/www/system_usermanager.php:207-314 | A new-user submission is accepted with no error when it passes every check. That means: required fields filled, a valid name of at most 32 characters, matching passwords, no PSK or groups, no expiry, no certificate, silent library checks, and an unused, unreserved name. |
| UserValidation.AcceptedNameFree | src/usr/local/www/system_usermanager.php:213-272 | A submission with no errors has a non-empty username that is either the edited user's own name or one no stored user has. |
| UserManager.BulkRunSpec | src/usr/local/www/system_usermanager.php:150-178 | The bulk delete removes exactly the selected stored users that are neither system accounts nor the session user. Every selection yields exactly one error or one recorded name. Only the two delete errors are reported, and nothing is removed without a name being recorded. BulkRunErrors pins down which error. |
| UserManager.BulkStep | src/usr/local/www/system_usermanager.php:157-168 | Definition of one turn of the foreach: a system user adds the system-user error, the session user adds the self-delete error, any other user's name is recorded and its index unset. |
| UserManager.BulkRun | src/usr/local/www/system_usermanager.php:156-169 | Definition of the foreach over the whole selection, in selection order. BulkRunSpec and BulkRunErrors characterise it. |
| UserManager.Refusal | src/usr/local/www/system_usermanager.php:157-168 | A selection reports nothing exactly when its user may be deleted. Otherwise it reports one error: the system-user error for a system account, else the self-delete error. |
| UserManager.BulkRunErrors | src/usr/local/www/system_usermanager.php:156-169 | The errors are, in selection order, exactly one refusal for each selection whose user the list at that point says may not be deleted. The recorded names are, in order, exactly the names of the selections whose user may be deleted. |
| UserManager.DistinctSelectionErrors | src/usr/local/www/system_usermanager.php:156-169 | For a selection naming no index twice, the errors are, in selection order, one per selected stored user that is a system account or the session user. An out-of-range index reads as an empty record. |
| UserManager.RunSelection | src/usr/local/www/system_usermanager.php:156-169 | The foreach over the selection, run on the list with holes, leaves the holes, the errors and the names that the bulk-delete definition prescribes. An index already unset reads as an empty record. |
| UserManager.BulkDelete | src/usr/local/www/system_usermanager.php:150-178 | After the loop and array_values, the list is the stored list without the removed indices, and it is the stored list when no name was recorded. The errors are the per-selection refusals. Uids stay below the counter, a sorted list stays sorted, and distinct names stay distinct. |
| UserManager.BulkDeleteEffect | src/usr/local/www/system_usermanager.php:171-177 | Compacting the holes gives the list without the removed indices, or the stored list when nothing is saved. Uids and name order survive. |
| UserManager.DeleteOne | src/usr/local/www/system_usermanager.php:122-124 | Unsetting one entry and reindexing is the list without it. |
| UserManager.WithoutKeeps | src/usr/local/www/system_usermanager.php:122-174 | Deleting entries keeps the uid bound and the name order. |
| UserManager.ReplaceKeeps | src/usr/local/www/system_usermanager.php:191-199 | Replacing an entry with one of the same name and uid keeps the uid bound and the name order. |
| UserManager.SavedKeepsUids | src/usr/local/www/system_usermanager.php:434-501 | The list after an edit-save keeps every uid below the counter. |
| UserManager.CreatedKeepsUids | src/usr/local/www/system_usermanager.php:476-493 | A new user takes the counter's value, which no stored user has; the counter then moves past it. |
| UserManager.SavedKeepsNames | src/usr/local/www/system_usermanager.php:434-501 | Saving an entry under its own name, or a name no user has, keeps the sorted list's names distinct. |
| UserManager.CreatedKeepsNames | src/usr/local/www/system_usermanager.php:476-501 | Appending a user with an unused name keeps the sorted list's names distinct. |
| UserManager.PrivLinksRows | src/usr/local/www/system_usermanager.php:545-571 | A row gets a delete link exactly when it is the user's own privilege in a writable table. Its id is the number of own rows before it. |
| UserManager.LinkIdsConsecutive | src/usr/local/www/system_usermanager.php:541-571 | The delete links of a writable table carry 0, 1, 2, ... in table order, one per own privilege; a read-only table has none. |
| UserManager.PrivLinks | src/usr/local/www/system_usermanager.php:545-571 | Definition of each privilege row's delete-link id, one per row; PrivLinksRows and LinkIdsConsecutive characterise it. |
| UserManager.PrivDeleteLinks | src/usr/local/www/system_usermanager.php:541-571 | The counter loop produces exactly those link ids. The admin notice is shown exactly when some row carries the root warning. |
| UserManager.EveryPreferenceFlag | src/usr/local/www/system_usermanager.php:350-432 | The save handles every boolean preference. |
| UserManager.PostedFlags | src/usr/local/www/system_usermanager.php:350-432 | Definition of the boolean preferences stored: those posted truthy. |
| UserManager.SubmittedFields | src/usr/local/www/system_usermanager.php:326-432 | Field rules of a save, all set from the form: <br>• the name; <br>• the scope, from `utype`, defaulting to `system`; <br>• the description, changed only when sent; <br>• the expiry, dashboard columns, base64-encoded authorized keys and PSK. <br>Every preference flag and each of the three menu preferences is present exactly when posted truthy. The uid, certificates and privileges are kept. |
| UserManager.Submitted | src/usr/local/www/system_usermanager.php:326-432 | Definition of the record a save builds from the form and the stored entry. SubmittedFields states its field rules. |
| UserManager.Created | src/usr/local/www/system_usermanager.php:437-477 | A new entry takes the given uid and, when a certificate is requested, exactly the new certificate's refid. |
| UserManager.AddToAllGroup | src/usr/local/www/system_usermanager.php:480-491 | The foreach with break over the groups computes the `all` group update. |
| UserManager.RemoveAt | src/usr/local/www/system_usermanager.php:191-199 | Deleting an existing index removes exactly that element; a missing index changes nothing. |
| UserManager.UserDatabase.DeleteUser | src/usr/local/www/system_usermanager.php:110-128 | There are three outcomes. It exits with no change exactly when the username is missing, the id is missing or out of range, or the names disagree. It adds a delete error and no change when the target is the session user. Otherwise it removes exactly the entry at id, compacts and writes once. Uid bound, name order and unique names are preserved. |
| UserManager.UserDatabase.DeleteSelected | src/usr/local/www/system_usermanager.php:150-179 | The users become the list without the deletable selected entries, the delete errors are extended by one refusal per selection whose user may not be deleted, in selection order, and one write happens exactly when some name was recorded. Uid bound, name order and unique names are preserved. |
| UserManager.UserDatabase.DeleteCert | src/usr/local/www/system_usermanager.php:181-195 | It exits with no change exactly when the id names no stored user. Otherwise only that user's cert list loses the entry at certid, and one write. Unique names are preserved. |
| UserManager.UserDatabase.DeletePriv | src/usr/local/www/system_usermanager.php:197-205 | Only the user at id loses the privilege at privid (nothing when either is missing), and one write. Unique names are preserved. |
| UserManager.UserDatabase.StoreEdited | src/usr/local/www/system_usermanager.php:434-501 | The entry is stored in place, the list is sorted by name and written once; uids stay below the counter. Names stay unique when the entry keeps its name or takes an unused one. |
| UserManager.UserDatabase.StoreNew | src/usr/local/www/system_usermanager.php:436-501 | The new user gets the old counter as uid, and the counter moves on by one. The uid joins the first `all` group. The certificate refid is recorded when one is requested. The user is appended, and the list is sorted and written once. The uid is fresh. Names stay unique when the new name is unused. |
| UserManager.UserDatabase.Commit | src/usr/local/www/system_usermanager.php:315-520 | A valid submission either rebuilds the entry at id or creates a new user, then sorts and writes once. sshd is restarted exactly when the stored uid is 0. Names stay unique when the submitted name is non-empty and the edited user's own or unused. |
| UserManager.UserDatabase.Save | src/usr/local/www/system_usermanager.php:207-524 | The input errors are exactly the validation chain's. The save happens exactly when there is none. A refused save changes nothing. An accepted save means: the edit or create result, sorted by name, one write, sshd restarted exactly when the saved uid is 0, and the uid bound and the uniqueness of user names preserved. |
| UserManager.UserDatabase.HandlePost | src/usr/local/www/system_usermanager.php:106-524 | A read-only request changes no state and no outcome. Its input errors are exactly the one read-only error when the POST is non-empty. A `deluser` without username or id ends the request unchanged. A redirect after save leaves no input errors and a sorted list. Writes never decrease, and the uid bound, sortedness and unique names are preserved. |
| CaptivePortalHostnames.AllowedHostnamesCmp | src/usr/local/www/services_captiveportal_hostname_edit.php:31-33 | The comparator returns -1, 0 or 1, and 0 exactly when the Unicode forms are equal. |
| CaptivePortalHostnames.CmpAntisymmetric | src/usr/local/www/services_captiveportal_hostname_edit.php:31-33 | Swapping the entries negates the comparison. |
| CaptivePortalHostnames.CmpPreorder | src/usr/local/www/services_captiveportal_hostname_edit.php:31-33 | The comparator is total and transitive. |
| CaptivePortalHostnames.SortedByCmp | src/usr/local/www/services_captiveportal_hostname_edit.php:35-40 | A list sorted by the Unicode key has no later entry comparing below an earlier one. |
| CaptivePortalHostnames.ZoneKey | src/usr/local/www/services_captiveportal_hostname_edit.php:50-52 | The normalised zone has no uppercase letter and no markup character, and it is empty exactly when the parameter is. |
| CaptivePortalHostnames.ZoneKeyOfPlainName | src/usr/local/www/services_captiveportal_hostname_edit.php:50-52 | A zone name without capitals or markup characters normalises to itself. |
| CaptivePortalHostnames.Edited | src/usr/local/www/services_captiveportal_hostname_edit.php:65-68 | The edited entry exists exactly when id names a stored entry, and it is that entry. |
| CaptivePortalHostnames.HostMatches | src/usr/local/www/services_captiveportal_hostname_edit.php:105 | Definition of PHP 8 loose `==` between the stored hostname and the ASCII form: with a failed conversion, it holds exactly for a falsy stored hostname. |
| CaptivePortalHostnames.RequiredError | src/usr/local/www/services_captiveportal_hostname_edit.php:81-87 | The required error is raised exactly when the ASCII conversion failed or gave "". |
| CaptivePortalHostnames.SyntaxError | src/usr/local/www/services_captiveportal_hostname_edit.php:89-91 | The invalid-hostname error is raised exactly when the ASCII form is truthy and fails the hostname check. |
| CaptivePortalHostnames.SpeedError | src/usr/local/www/services_captiveportal_hostname_edit.php:93-98 | A speed error is raised exactly when the speed is truthy and not numeric. |
| CaptivePortalHostnames.DuplicateError | src/usr/local/www/services_captiveportal_hostname_edit.php:100-109 | The duplicate error is raised, once, exactly when some compared entry has the posted hostname. |
| CaptivePortalHostnames.FindDuplicate | src/usr/local/www/services_captiveportal_hostname_edit.php:100-109 | The foreach with continue and break finds a duplicate exactly when some entry not identical to the edited one has a hostname loosely equal to the ASCII form. |
| CaptivePortalHostnames.ValidateEntry | src/usr/local/www/services_captiveportal_hostname_edit.php:81-109 | The accumulated errors are the five checks' errors, in page order. |
| CaptivePortalHostnames.HostnameErrorsIff | src/usr/local/www/services_captiveportal_hostname_edit.php:81-109 | Each of the five checks contributes its error exactly when its condition holds. |
| CaptivePortalHostnames.DuplicateReportedOnce | src/usr/local/www/services_captiveportal_hostname_edit.php:100-109 | At most five errors, and the duplicate error never appears twice. |
| CaptivePortalHostnames.HostnameErrors | src/usr/local/www/services_captiveportal_hostname_edit.php:81-109 | Definition of the validation's error list, in page order. HostnameErrorsIff and Accepted characterise it. |
| CaptivePortalHostnames.Accepted | src/usr/local/www/services_captiveportal_hostname_edit.php:81-111 | An accepted submission meets four conditions: <br>• its ASCII form exists and is non-empty; <br>• it passes the hostname check unless it is "0"; <br>• its truthy speeds are numeric; <br>• no compared entry has that hostname. |
| CaptivePortalHostnames.SubmittedEntry | src/usr/local/www/services_captiveportal_hostname_edit.php:112-122 | The stored entry takes the ASCII hostname and the posted sn, dir and description. It keeps each speed exactly when that speed is truthy. |
| CaptivePortalHostnames.UpsertSpec | src/usr/local/www/services_captiveportal_hostname_edit.php:123-127 | Editing replaces only the entry at id. Creating appends after the unchanged others. |
| CaptivePortalHostnames.Upsert | src/usr/local/www/services_captiveportal_hostname_edit.php:123-127 | Definition of the list after config_set_path at id, or the append. UpsertSpec states its effect. |
| CaptivePortalHostnames.DirMap | src/usr/local/www/services_captiveportal_hostname_edit.php:143-145 | Every label's lowercase is a key. Each key is the lowercase of its value, and that value is one of the labels. The last label wins a shared key. |
| CaptivePortalHostnames.BuildDirList | src/usr/local/www/services_captiveportal_hostname_edit.php:139-148 | Definition of build_dir_list over the three translated labels. BuildDirListThree and BuildDirListUntranslated state its result. |
| CaptivePortalHostnames.BuildDirListThree | src/usr/local/www/services_captiveportal_hostname_edit.php:139-148 | When the three translated labels differ in lowercase, the list has exactly three entries, each under its label's lowercase. |
| CaptivePortalHostnames.BuildDirListUntranslated | src/usr/local/www/services_captiveportal_hostname_edit.php:139-148 | Untranslated, the list is both → Both, from → From, to → To. |
| CaptivePortalHostnames.SavedListSpec | src/usr/local/www/services_captiveportal_hostname_edit.php:31-40 | After a save, the zone's list is a permutation of the upserted list, holds the new entry, and is ordered by the comparator. |
| CaptivePortalHostnames.SavedHostsDistinct | src/usr/local/www/services_captiveportal_hostname_edit.php:100-137 | A save without errors keeps a zone's hostnames distinct after the upsert and the sort. |
| CaptivePortalHostnames.PortalConfig.StoreEntry | src/usr/local/www/services_captiveportal_hostname_edit.php:123-127 | Only the zone's list changes, to the upserted list. |
| CaptivePortalHostnames.PortalConfig.SortZone | src/usr/local/www/services_captiveportal_hostname_edit.php:35-40 | Only the zone's list changes: it is sorted with the comparator, and an absent list becomes the empty one. |
| CaptivePortalHostnames.PortalConfig.Edit | src/usr/local/www/services_captiveportal_hostname_edit.php:50-137 | An empty or unconfigured zone goes back to the zone list with no change. Without save, the form is shown unchanged. With save, the errors are exactly the validation's, and any error leaves the state unchanged. Otherwise the zone's list becomes the sorted upsert, there is one write, and the page goes on to the hostname list. Every zone keeps distinct hostnames. |

## Left out

- HTML output, the form and its prefill from the stored entry (`$this_user`, `$this_allowedhostname_config` into `$pconfig`), the `act=new` form defaults, the certificate table and JavaScript: presentation only.
- Sessions and privileges: the read-only flag and the session username are inputs.
- Only the required-field check of `do_input_validation` is modelled. A required field is reported when it is unset or loosely equal to `""` (covering PHP's `false`, which stands for a failed IDN conversion). Its scan of field values for control characters is not modelled.
- Opaque library checks: `validate_password`, DateTime parsing and `format("m/d/Y")`, `lookup_ca`, `getGroupEntry` (only whether it finds the group), the four `validate_webgui*_field` checks, `base64_encode`, `idn_to_ascii`, `idn_to_utf8`, `is_hostname`, `is_numeric` and `gettext` are parameters without interpretation.
- Reading `/etc/passwd`: the system account names are a parameter (the first field of each line).
- Certificate creation (`cert_create`, subject and alt-name building, the `cert/` list entry): only the new refid, a parameter, is attached to the user and recorded.
- OS account hooks (`local_user_del`, `local_user_set`, `local_user_set_password`), `index_users`, privilege hooks and `send_event`; `sshd` restart is a returned flag. Password hashing therefore is not modelled: the stored record has no password fields.
- `local_user_set_groups` (system_usermanager.php line 503) sets the saved user's membership in `system/group` from the posted groups. It is left out, so the edit branch's `groups == old(groups)` holds only because that call is not modelled; only the new user's join of `all` is.
- `write_config`, syslog and log messages: persistence is a write counter; redirects and `exit` are outcome tags.
- `captiveportal_allowedhostname_cleanup` and `captiveportal_allowedhostname_configure`: firewall side effects outside the configuration.
- `get_user_privdesc`: the privilege rows are an input sequence; only the counter and the admin-notice flag are modelled, not the HTML of each row.
- Error messages are constructors, not translated strings; messages that embed a user name or the hostname carry it as a field.
- PHP loose `==` and `!=` between numeric strings (`"10" == "1e1"`, `"1" == "1.0"`) are treated as plain string comparison. This covers the username, delete and hostname comparisons and the password confirmation.
- UserValidation.PasswordMismatchIff: states the mismatch for plain string inequality. PHP's loose `!=` on line 244 compares numeric strings as numbers, so a pair such as `"1"` and `"1.0"` draws the error in the model but not in PHP. UserValidation.MismatchErrors has the same gap.
- The `delete_check` values and `id` are modelled as integers; non-numeric selections are not modelled.
- `delcert` and `delprivid` unset an element of the user's cert or priv list and leave a key gap in PHP; the model removes the element and closes the gap.
- `system/nextuid` is taken to be an integer.
- A zone whose configuration exists but is an empty array counts as configured in the model; the page treats it as missing.
- Sorting.SortBy: PHP 8's usort is stable and the insertion sort modelled is too, but stability is not stated as a property.
- CaptivePortalHostnames.BuildDirListThree: proves three entries only when the translated labels differ in lowercase; with colliding translations the map has fewer.
- UserManager.UserDatabase.HandlePost: states the read-only gate, the early exit of `deluser`, the save's redirect and the preserved invariants; the effect of each branch is stated by the branch's own method rather than repeated for every combination of posted fields.
