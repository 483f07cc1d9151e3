# Email campaign admin: a Dafny model

A model of the server side of the email-campaign admin portal: how interns
are managed and how campaigns are sent. Two client pages are modelled too.

- **Interns.** Admins add interns in bulk, either as free text or as a
  single name and email. The model covers validating them against the user
  schema, approving or rejecting them, assigning them to units, listing them
  page by page, and deleting them.
- **Units.** Creating, listing, fetching, renaming and deleting the units
  interns belong to.
- **Campaigns.** Choosing recipients and previewing a personalised message.
  Sending it means filling in `{{name}}`, `{{email}}`, `{{role}}` and
  `{{unit}}` per recipient, wrapping the body in the fixed HTML page, sending
  every mail, tallying the outcomes and deleting the uploaded attachments.
- **Uploads.** The rules the upload middleware applies to attachments.
- **Client pages.** The campaign page, with recipient selection, files and
  the send guard. The users page, with its search filter and add form.

The database is an in-memory store, the class `Store.Db`. Its users and its
units are sequences in insertion order. A counter stands for the ObjectId
generator: each new id is the 24-digit lower-case hexadecimal rendering of
the counter (`Numerals.ObjectIdHex`). Creation and update times are the
request's clock reading, a parameter, so two documents may share one. Every
handler that changes the store is a method on it. Each method states the new
store completely and keeps the store's invariant `Valid()`. That invariant
says:

- every document is well formed, and a user's unit reference is a cast
  ObjectId;
- ids increase strictly in store order;
- emails are unique;
- unit names are unique.

An id that arrives in a request is cast the way Mongoose casts to an
ObjectId (`Numerals.CastObjectId`): 24 hexadecimal digits in either case
name the ObjectId spelled with the lower-case digits, and anything else
raises a CastError. Every handler that looks a document up by such an id
answers that error first.

The outside world is reduced to parameters:

- The mail relay is a function from (attempt index, mail) to `Delivered` or
  `Failed(message)`.
- File deletion is a function from a path to success.
- The footer's year, the upload timestamp and the random number in stored
  file names are plain numbers.

Modules, one per file:

| module | file | models |
|---|---|---|
| `Http` | http.dfy | `Option`, `Result`, the HTTP error kinds, JavaScript truthiness of an optional string |
| `Text` | text.dfy | `trim`, `toLowerCase` on ASCII letters, `includes`, `indexOf`, `split`, `join`, global literal `replace` |
| `Numerals` | numerals.dfy | decimal and hexadecimal rendering, injectivity, the ObjectId width |
| `UserModel` | user_model.dfy | the user schema: role enum, setters, the email pattern, defaults, `comparePassword` |
| `UnitModel` | unit_model.dfy | the unit schema |
| `Store` | store.dfy | the collections, their invariants and their update operations |
| `BulkParser` | bulk_parser.dfy | the free-text parser of `addInterns` |
| `AdminController` | admin_controller.dfy | `addInterns`, `updateUserStatus`, `deleteUser`, `getUsers` |
| `UnitController` | unit_controller.dfy | `createUnit`, `getAllUnits`, `getUnitById`, `updateUnit`, `deleteUnit` |
| `Templates` | templates.dfy | `replaceVariables`, `generateEmailHtml` |
| `Attachments` | attachments.dfy | the attachment filter, the upload limits, the stored file name |
| `Campaign` | campaign.dfy | `getRecipients`, `previewEmail`, `sendCampaign` |
| `CampaignPage` | campaign_page.dfy | the email-campaign page |
| `UsersPage` | users_page.dfy | the users page |

Where the code does something other than its own comments or the
repository's description say, the model follows the code:

- **Bulk text.** `addInterns` splits the text on commas before the
  per-line rules run. So `John Doe, john@x.com` yields the single intern
  `john <john@x.com>`: the segment `John Doe` is dropped for lack of an `@`.
  The handler's own comments promise a `Name, email@example.com` form
  (server/src/controllers/admin.controller.ts:90) and a `Name, Email` match
  (server/src/controllers/admin.controller.ts:102), which would yield
  `John Doe`. See `BulkParser.ExampleCommaSplitsName`.
- **Rename to a padded name.** `updateUnit` looks up a new name only when
  it differs from the stored one as typed. The lookup then runs on the
  trimmed name. So renaming unit `A` to ` A ` is refused with "already
  exists": the unit finds itself. `UnitController.UpdateUnit` states this.

## Model

| member | source | states |
|---|---|---|
| UserModel.ParseRole | server/src/model/user.model.ts:5-8 | a role string is accepted exactly when it is `admin` or `user`, and the accepted role renders back to the same string |
| UserModel.EmailValidatorMatchesPattern | server/src/model/user.model.ts:38-41 | the executable email check holds exactly when the text matches `^[^\s@]+@[^\s@]+\.[^\s@]+$`, stated as a cut into local part, domain and suffix |
| UserModel.ValidEmailShape | server/src/model/user.model.ts:38-41 | a valid email has no white space and exactly one `@`, which is not its first character |
| UserModel.ValidEmailExample | server/src/model/user.model.ts:38-41 | `john@x.com` is accepted |
| UserModel.InvalidEmailExamples | server/src/model/user.model.ts:38-41 | `john@x` (no dot in the domain), `a@b@c.de` (two `@`) and `jo hn@x.com` (a space) are refused |
| UserModel.LowerTrimCommute | server/src/model/user.model.ts:36-37 | the `lowercase` and `trim` setters commute, so their order does not matter |
| UserModel.NewUser | server/src/model/user.model.ts:26-67 | a document validates exactly when the unit (if any) casts to an ObjectId, the trimmed name is non-empty and the trimmed, lower-cased email matches the pattern. It then stores exactly those values and the cast unit. It is active, has no password and no rejection reason, and keeps the given id, role, approval and creation time. A failure is a validation error, and a bad unit gives the `Cast to ObjectId failed` message first |
| UserModel.UserValidationErrors | server/src/model/user.model.ts:26-55 | the list of path errors is empty exactly when unit, name and email are all valid, and a unit that does not cast comes first |
| UserModel.CastUnit | server/src/model/user.model.ts:52-55 | no unit stays no unit; a unit that casts is stored as an ObjectId denoting the same number |
| UserModel.NewUserWellFormed | server/src/model/user.model.ts:26-67 | every document that validates satisfies the store's well-formedness predicate |
| UserModel.ComparePassword | server/src/model/user.model.ts:94-99 | with no stored password the answer is false; otherwise it is the hash comparison's answer |
| UnitModel.TrimOpt | server/src/model/unit.model.ts:18-21 | an optional description stays present or absent and is trimmed |
| UnitModel.NewUnit | server/src/model/unit.model.ts:10-26 | a unit validates exactly when its trimmed name is non-empty. It then has the trimmed name, the trimmed description and equal creation and update times. Otherwise the error is "Unit name is required" |
| UnitModel.NewUnitWellFormed | server/src/model/unit.model.ts:10-26 | every unit that validates is well formed: name non-empty and trimmed, description trimmed |
| Store.FindUser | server/src/controllers/admin.controller.ts:165-168 | `findById`: a CastError exactly for an id that does not spell an ObjectId. Otherwise the user whose id is the cast id, or the statement that no user has it |
| Store.FindUnit | server/src/controllers/admin/unit.controller.ts:51-54 | the same for units |
| Store.FindStoredUser | server/src/controllers/admin.controller.ts:165 | any spelling of a stored user's ObjectId, in either letter case, finds exactly that user |
| Store.FindStoredUnit | server/src/controllers/admin/unit.controller.ts:51 | the same for units |
| Store.UserIdsDistinct | server/src/model/user.model.ts:75-78 | in a valid store no two users share an id |
| Store.UnitIdsDistinct | server/src/model/unit.model.ts:23-25 | in a valid store no two units share an id |
| Store.RemovedIdGone | server/src/controllers/admin.controller.ts:197 | after removing a user from a valid store, no user with its id is left |
| Store.UsersValidAppend | server/src/model/user.model.ts:32-41 | appending a well-formed user with a fresh email and the id minted from the counter keeps the user collection valid once the counter moves on: ids stay distinct and the unique index holds |
| Store.UnitsValidAppend | server/src/model/unit.model.ts:12-16 | appending a well-formed unit with a name not yet taken and the minted id keeps the unit collection valid: the unique index on names holds |
| Store.UsersValidRemove | server/src/controllers/admin.controller.ts:197 | removing a user keeps the collection valid |
| Store.UnitsValidRemove | server/src/controllers/admin/unit.controller.ts:111 | removing a unit keeps the collection valid |
| Store.UsersValidReplace | server/src/controllers/admin.controller.ts:183 | saving a changed well-formed user with the same id and email keeps the collection valid |
| Store.UsersValidWithoutUnit | server/src/controllers/admin/unit.controller.ts:108 | detaching a unit's users, as the comment says the handler means to, keeps the collection valid |
| Store.Db.AddUser | server/src/controllers/admin.controller.ts:138-144 | `User.create`: the store gains exactly the new user at its end, the clock advances, and the store stays valid |
| Store.Db.ReplaceUser | server/src/controllers/admin.controller.ts:183 | `user.save()`: exactly that position changes |
| Store.Db.RemoveUser | server/src/controllers/admin.controller.ts:197 | `findByIdAndDelete`: exactly that position is removed |
| Store.Db.ClearUnitRefs | server/src/controllers/admin/unit.controller.ts:108 | the intended "set to null": exactly the users of the unit lose their unit, and the store stays valid |
| Store.Db.AddUnit | server/src/controllers/admin/unit.controller.ts:23 | `Unit.create`: exactly the new unit is appended, the counter advances, and the store stays valid |
| Store.Db.TouchUnit | server/src/controllers/admin/unit.controller.ts:86 | `unit.save()` after a change: the new name and description, with `updatedAt` set to the request's time; nothing else changes |
| Store.Db.RemoveUnit | server/src/controllers/admin/unit.controller.ts:111 | `Unit.deleteOne`: exactly that position is removed |
| BulkParser.SegmentShape | server/src/controllers/admin.controller.ts:92 | every segment is non-empty and trimmed, and contains neither a comma nor a newline |
| BulkParser.BracketSplitGreedy | server/src/controllers/admin.controller.ts:96 | the computed cut is the greedy match of `^(.+)<(.+)>$`: the last `<` that leaves text on both sides. No other match lies further right |
| BulkParser.BracketRule | server/src/controllers/admin.controller.ts:96-100 | a segment matching the bracket pattern yields the trimmed text before the cut as the name and the trimmed bracket content as the email |
| BulkParser.WordRule | server/src/controllers/admin.controller.ts:104-110 | with two or more words and no bracket match, an entry is produced exactly when the last word contains `@`. It has that word as the email and the other words joined by single spaces as the name |
| BulkParser.SingleTokenRule | server/src/controllers/admin.controller.ts:111-113 | a one-word segment yields an entry exactly when it contains `@`, named by the text before the first `@` |
| BulkParser.ExampleBracket | server/src/controllers/admin.controller.ts:96-100 | `Jane Smith <jane@x.com>` yields `Jane Smith`, `jane@x.com` |
| BulkParser.ExampleNoAtInBrackets | server/src/controllers/admin.controller.ts:96-100 | the bracket content is not checked for `@`: `Bob <nobody>` yields `Bob`, `nobody` |
| BulkParser.JohnDoeSegments | server/src/controllers/admin.controller.ts:92 | `John Doe, john@x.com` is cut into `John Doe` and `john@x.com` |
| BulkParser.JohnDoeDropped | server/src/controllers/admin.controller.ts:104-110 | `John Doe` yields nothing: its last word has no `@` |
| BulkParser.TwoWordSegment | server/src/controllers/admin.controller.ts:104-110 | two words without a closing `>` yield an entry exactly when the second word has an `@`, with the first word as name and the second as email |
| BulkParser.SingleEmailSegment | server/src/controllers/admin.controller.ts:111-113 | a lone token `local@rest` without white space, with no `@` in `local` and no `>` in `rest`, yields `local` as name and the token as email |
| BulkParser.JohnEmailSegment | server/src/controllers/admin.controller.ts:111-113 | `john@x.com` yields the name `john` |
| BulkParser.ExampleCommaSplitsName | server/src/controllers/admin.controller.ts:92-113 | `John Doe, john@x.com` yields only `john`, `john@x.com` |
| BulkParser.ParseBulk | server/src/controllers/admin.controller.ts:94-114 | the parse loop pushes exactly what each segment yields, in order |
| BulkParser.ParseLinesSource | server/src/controllers/admin.controller.ts:94-114 | every parsed candidate comes from some segment |
| BulkParser.ParseLinesComplete | server/src/controllers/admin.controller.ts:94-114 | every segment that yields a candidate has it in the parse |
| AdminController.Candidates | server/src/controllers/admin.controller.ts:82-121 | "User data is required" exactly for a falsy input. A non-string, non-object input, or an object without a truthy name and email, gives "No valid users found in input". Success always carries a non-empty list, and an object yields its own name and email |
| AdminController.TextCandidates | server/src/controllers/admin.controller.ts:89-121 | a non-empty text is accepted exactly when its segments parse to at least one candidate. It then yields exactly the parse: every candidate comes from a segment and every segment's candidate is there |
| AdminController.AddAllAccounts | server/src/controllers/admin.controller.ts:129-149 | every candidate gets exactly one outcome: added + skipped + errors grows by the number of candidates |
| AdminController.AddAllExtends | server/src/controllers/admin.controller.ts:129-149 | the loop only appends to the store, one user and one id per `added`. Each new user is a fresh intern (role `user`, not approved, active, unit the cast of the given one, no password or reason) stamped with the request's time and holding the next minted id |
| AdminController.AddAllCovers | server/src/controllers/admin.controller.ts:129-149 | after the loop, every candidate the schema accepts has its normalised email in the store, whether it was added now or before |
| AdminController.DuplicateInBatchSkipped | server/src/controllers/admin.controller.ts:132-136 | a second candidate whose email normalises to that of an earlier accepted candidate in the same batch is skipped |
| AdminController.AddOneErrors | server/src/controllers/admin.controller.ts:146-148 | one iteration adds at most one error line, `Failed to add <email>: <message>`, and only for a candidate the schema refuses |
| AdminController.AddAllErrorSource | server/src/controllers/admin.controller.ts:146-148 | every error line the loop adds names a candidate the schema refuses |
| AdminController.AddAllValid | server/src/controllers/admin.controller.ts:129-149 | the loop keeps the store valid, in particular emails unique |
| AdminController.AddCandidate | server/src/controllers/admin.controller.ts:130-148 | one iteration against the store does what the loop's specification says and keeps the store valid |
| AdminController.AddBatch | server/src/controllers/admin.controller.ts:129-149 | the loop over the store leaves the store and report of the loop's specification, and keeps the store valid |
| AdminController.AddInterns | server/src/controllers/admin.controller.ts:78-157 | bad input is rejected before any lookup and leaves the store unchanged. Otherwise the store and the report are those of the add loop over the candidates, and the message counts the entries, added and skipped |
| AdminController.ApplyStatus | server/src/controllers/admin.controller.ts:170-183 | approving clears the reason. Un-approving sets the trimmed reason only when one is given. `unassigned` clears the unit, and another unit id is stored cast. An id that does not cast fails the save with the `Cast to ObjectId failed` validation error. An absent field leaves its value alone, and identity, email, role and activity never change |
| AdminController.ApplyStatusWellFormed | server/src/controllers/admin.controller.ts:170-183 | an update the save accepts keeps the user well formed |
| AdminController.ApplyStatusIdempotent | server/src/controllers/admin.controller.ts:170-181 | applying an accepted update twice gives the same document as once |
| AdminController.UpdateUserStatus | server/src/controllers/admin.controller.ts:160-191 | a malformed id gives the CastError and an unknown one "User not found", both changing nothing. Otherwise the result is the update of that user; if the save accepts it, exactly that user is replaced, and if not, nothing changes |
| AdminController.DeleteUser | server/src/controllers/admin.controller.ts:194-206 | a malformed id gives the CastError and an unknown one "User not found", both changing nothing. Otherwise exactly that user is removed and no user with that ObjectId remains |
| AdminController.UserQueryOf | server/src/controllers/admin.controller.ts:28-51 | the role filter exactly for a truthy role other than `all`. No unit filter for a missing or `all` unit; unit absent for `unassigned`; otherwise the unit filter names the id. An approval filter exactly when the parameter is present and not `all`, true only for `true`. A search exactly for a truthy term |
| AdminController.QueryCastError | server/src/controllers/admin.controller.ts:34-39 | the query raises a CastError exactly when its unit filter is an id that does not spell an ObjectId |
| AdminController.BuildUserQuery | server/src/controllers/admin.controller.ts:28-51 | the field-by-field construction builds that query |
| AdminController.SelectedIff | server/src/controllers/admin.controller.ts:58 | `find` returns exactly the stored users matching the query |
| AdminController.SelectedAll | server/src/controllers/admin.controller.ts:58 | an empty query returns every user in store order |
| AdminController.SelectedKeepsStoreOrder | server/src/controllers/admin.controller.ts:58 | whatever the creation times, the selection is the store read at increasing positions, and those positions are exactly the ones of the matching users |
| AdminController.SelectedOrdered | server/src/controllers/admin.controller.ts:58 | when creation times increase strictly in store order, they increase strictly in the selection too |
| AdminController.SortNewestFirstCorrect | server/src/controllers/admin.controller.ts:60 | `sort({createdAt: -1})` lists exactly the given users, each as often, in non-increasing creation time |
| AdminController.SortReversesOldestFirst | server/src/controllers/admin.controller.ts:60 | when creation times increase strictly in store order, the sort is the store order reversed |
| AdminController.TotalPagesIsCeiling | server/src/controllers/admin.controller.ts:70 | the page count is the least number of pages of `limit` entries covering the total |
| AdminController.PageSizes | server/src/controllers/admin.controller.ts:61-62 | a page holds at most `limit` entries. Pages before the last are full, the last holds the rest, and later pages are empty |
| AdminController.PagesPrefix | server/src/controllers/admin.controller.ts:61-62 | the first n pages in a row are the first n·limit entries |
| AdminController.PagesCover | server/src/controllers/admin.controller.ts:61-70 | pages 1 to the page count cover the whole list exactly once, in order |
| AdminController.GetUsers | server/src/controllers/admin.controller.ts:17-75 | a malformed unit filter gives the CastError. Otherwise the response is the requested page of the matching users, newest first, with defaults page 1 and limit 20. `count` is the page's size, `totalPages` the ceiling of matches over limit, `currentPage` the page |
| AdminController.GetUsersOrder | server/src/controllers/admin.controller.ts:58-63 | a page lists only matching users, newest first (ties allowed) |
| AdminController.GetUsersPagesCover | server/src/controllers/admin.controller.ts:58-70 | the pages up to the page count list every matching user exactly as often as it matches |
| AdminController.PageOfSlice | server/src/controllers/admin.controller.ts:61-62 | a page keeps the order and adds nothing |
| UnitController.CreateUnit | server/src/controllers/admin/unit.controller.ts:10-33 | a falsy name gives "Unit name is required" and a taken name "Unit with this name already exists", both with the store unchanged. A name that trims to nothing fails validation. Success holds exactly otherwise, and then exactly one unit with the trimmed name and description, the minted id and both times the request's time is added |
| UnitController.NameLeTotal | server/src/controllers/admin/unit.controller.ts:38 | the name order is total |
| UnitController.NameLeTrans | server/src/controllers/admin/unit.controller.ts:38 | the name order is transitive |
| UnitController.NameLeAntisym | server/src/controllers/admin/unit.controller.ts:38 | the name order is antisymmetric |
| UnitController.InsertByName | server/src/controllers/admin/unit.controller.ts:38 | inserting into an ordered listing keeps it ordered |
| UnitController.SortByNameCorrect | server/src/controllers/admin/unit.controller.ts:38 | the listing is ordered by name and is a permutation of the stored units |
| UnitController.ByNameUnique | server/src/controllers/admin/unit.controller.ts:38 | with unique names, two ordered permutations of the same units are equal, so the listing is determined |
| UnitController.GetAllUnits | server/src/controllers/admin/unit.controller.ts:36-45 | returns every stored unit, each as often as stored, ordered by name |
| UnitController.GetUnitById | server/src/controllers/admin/unit.controller.ts:48-61 | a malformed id gives the CastError. Success holds exactly when a unit has the ObjectId the id names, and then it is that unit; otherwise "Unit not found" |
| UnitController.UpdateUnit | server/src/controllers/admin/unit.controller.ts:64-96 | a malformed id gives the CastError and an unknown id "Unit not found". A truthy name that differs as typed is a rename, refused when its trimmed form is taken (by any unit, this one included) or empty. A given description, even empty, replaces the stored one, trimmed. `updatedAt` becomes the request's time exactly when something changed. A refusal saves nothing |
| UnitController.WithoutUnitEffect | server/src/controllers/admin/unit.controller.ts:108 | detaching a unit, as intended, changes only the users in it, and only their unit |
| UnitController.DeleteUnitAsWritten | server/src/controllers/admin/unit.controller.ts:99-120 | the handler as written: a malformed id gives the CastError and an unknown one "Unit not found", both changing nothing. Otherwise only the unit is removed; the users, with their references to it, stay as they were |
| UnitController.FormerMembersNotUnassigned | server/src/controllers/admin.controller.ts:34-39 | after the handler as written, a member of the deleted unit is not listed by `unitId=unassigned` and is still listed under the deleted unit's id |
| UnitController.ClearedMembersUnassigned | server/src/controllers/admin/unit.controller.ts:108 | once the references are cleared, the same member is listed as unassigned and the deleted unit's filter lists nobody |
| UnitController.DeleteUnit | server/src/controllers/admin/unit.controller.ts:99-120 | the handler as the comment on line 108 intends: a malformed id gives the CastError and an unknown one "Unit not found", both changing nothing. Otherwise every member's unit is cleared, the user count is unchanged, the unit is removed, and no user or unit refers to its ObjectId |
| Templates.Token | server/src/controllers/admin/dynamicEmail.controller.ts:264 | the token is `{{`, the key and `}}` |
| Templates.Fallback | server/src/controllers/admin/dynamicEmail.controller.ts:265 | an empty value becomes `N/A`; any other value is kept |
| Templates.ReplaceVariables | server/src/controllers/admin/dynamicEmail.controller.ts:257-269 | the loop's result is the key-by-key substitution |
| Templates.NoTokenUnchanged | server/src/controllers/admin/dynamicEmail.controller.ts:257-269 | a template holding none of the keys' tokens comes back unchanged, unknown tokens included |
| Templates.NoBracesUnchanged | server/src/controllers/admin/dynamicEmail.controller.ts:257-269 | a template without `{{` comes back unchanged |
| Templates.SingleToken | server/src/controllers/admin/dynamicEmail.controller.ts:265 | a lone token becomes its value, or `N/A` for an empty value |
| Templates.SequentialSubstitution | server/src/controllers/admin/dynamicEmail.controller.ts:263-266 | a value holding a later key's token is itself substituted |
| Templates.TokenInText | server/src/controllers/admin/dynamicEmail.controller.ts:263-266 | a token inside text without other braces is replaced by its value, or `N/A`, and the text around it is kept |
| Templates.GreetingExample | server/src/controllers/admin/dynamicEmail.controller.ts:257-269 | `Hello {{name}}!` with the name `Ada` becomes `Hello Ada!` |
| Text.ReplaceAllFirst | server/src/controllers/admin/dynamicEmail.controller.ts:264-265 | the global literal replace rewrites the first occurrence after a prefix that cannot hold one, keeps the prefix, and goes on after the occurrence |
| Templates.GenerateEmailHtml | server/src/controllers/admin/dynamicEmail.controller.ts:272-329 | the page is the header with the title interpolated (an absent title is written as the text `undefined`), then the body verbatim, then the footer with the year |
| Templates.GenerateEmailHtmlInjective | server/src/controllers/admin/dynamicEmail.controller.ts:272-329 | for a fixed title and year, the page determines the body |
| Attachments.AttachmentFilter | server/src/routes/admin.routes.ts:37-48 | a file is accepted exactly when its type is one of the seven listed. Otherwise it is refused with "Invalid file type. Only images, PDFs, and DOCX files are allowed." |
| Attachments.ScreenAccepts | server/src/routes/admin.routes.ts:50-54 | a request is accepted exactly when it has at most five parts and every named part is in the `attachments` field, of an allowed type and at most 10 MiB. Then the kept files are the named parts, in order |
| Attachments.ScreenErrors | server/src/routes/admin.routes.ts:50-54 | every rejection carries one of the four upload messages |
| Attachments.ExtName | server/src/routes/admin.routes.ts:32 | the extension is empty exactly when the base name has no dot after its first character (or is `..`). Otherwise it starts with the base name's last dot, holds no other dot, and is a proper suffix of the base name |
| Attachments.StoredFilenameInjective | server/src/routes/admin.routes.ts:30-34 | different timestamps or random numbers give different stored names, and equal names keep the same extension |
| Campaign.TextIds | server/src/controllers/admin/dynamicEmail.controller.ts:94-96 | a string that is not JSON gives at least one id, each trimmed and free of commas |
| Campaign.MintedIdsPassCheck | server/src/controllers/admin/dynamicEmail.controller.ts:109 | every id the store mints passes the 24-hex-digit check |
| Numerals.CastObjectId | server/src/model/user.model.ts:52-55 | a string casts exactly when it is 24 hexadecimal digits; the ObjectId then spells the same number with lower-case digits and passes the check itself |
| Numerals.CastMintedId | server/src/model/user.model.ts:52-55 | an id the store mints casts to itself |
| Numerals.CastIdempotent | server/src/model/user.model.ts:52-55 | casting a cast ObjectId gives it back |
| Numerals.CastSameValue | server/src/controllers/admin/dynamicEmail.controller.ts:113 | two well-formed ids name the same ObjectId exactly when they denote the same number |
| Numerals.CastIgnoresCase | server/src/controllers/admin/dynamicEmail.controller.ts:109-113 | an upper-case spelling, which the preview's check also accepts, names the same ObjectId as the lower-case one |
| Campaign.UnitNameOf | server/src/controllers/admin/dynamicEmail.controller.ts:123 | the populated unit name is the name of the unit the user refers to, if that unit exists |
| Campaign.RecipientVarsFacts | server/src/controllers/admin/dynamicEmail.controller.ts:195-200 | the variables are name, email, role and unit, in that order. A stored user's own name and email are used, and the unit variable is `N/A` exactly when the user has no existing unit |
| Campaign.Project | server/src/controllers/admin/dynamicEmail.controller.ts:68-75 | one entry per user, in order, with id, name, email, role, unit name and approval |
| Campaign.GetRecipients | server/src/controllers/admin/dynamicEmail.controller.ts:34-82 | a malformed unit filter gives the CastError. Otherwise the recipients are the projection of the users matching the unit, approval and search filter, in store order |
| Campaign.RecipientsAreMatches | server/src/controllers/admin/dynamicEmail.controller.ts:41-60 | the filter has no role condition and selects exactly the matching users |
| Campaign.AttachmentInfos | server/src/controllers/admin/dynamicEmail.controller.ts:129-134 | one entry per file with its name, size and type |
| Campaign.PreviewIds | server/src/controllers/admin/dynamicEmail.controller.ts:101-147 | an empty id list, a first id that is not 24 hex digits, and a first id naming no user each give their BadRequest. A missing body fails in `replace`. Success renders, for the user the first id names in either letter case, the substituted body in the page, with that user's name and email and the attachment list |
| Campaign.PreviewFirstOnly | server/src/controllers/admin/dynamicEmail.controller.ts:107 | ids after the first make no difference |
| Campaign.EmailAttachments | server/src/controllers/admin/dynamicEmail.controller.ts:176-181 | one attachment per file with its name, path and type |
| Campaign.FirstMalformed | server/src/controllers/admin/dynamicEmail.controller.ts:183-185 | the id `$in` fails on: none exactly when all ids spell ObjectIds, otherwise the first listed id that does not |
| Campaign.ResolveIff | server/src/controllers/admin/dynamicEmail.controller.ts:183-185 | `find({_id: {$in: ids}})` returns exactly the stored users whose ObjectId some listed id names, in either letter case |
| Campaign.TallyAccounts | server/src/controllers/admin/dynamicEmail.controller.ts:187-228 | every mail is attempted once: sent + failed is the number of mails, failed is the number of refusals, and there is one error line per failure, `Failed to send to <email>: <message>` |
| Campaign.TallyCounts | server/src/controllers/admin/dynamicEmail.controller.ts:187-228 | sent + failed is the number of mails, and there are as many errors as failures |
| Campaign.TallyAllDelivered | server/src/controllers/admin/dynamicEmail.controller.ts:187-228 | when every send succeeds, all are counted sent, with no errors |
| Campaign.CampaignMails | server/src/controllers/admin/dynamicEmail.controller.ts:195-216 | one mail per user, addressed to that user, with the substituted and wrapped body |
| Campaign.ComposeMail | server/src/controllers/admin/dynamicEmail.controller.ts:195-216 | the mail built by running `replaceVariables` and `generateEmailHtml` is the user's mail |
| Campaign.Dispatch | server/src/controllers/admin/dynamicEmail.controller.ts:187-228 | the loop's report is the tally of all mails; a failure never stops later recipients |
| Campaign.Cleanup | server/src/controllers/admin/dynamicEmail.controller.ts:230-242 | every uploaded file is deleted once, whatever happened before. Each failure is logged with its path and the loop goes on |
| Campaign.SendMessageShape | server/src/controllers/admin/dynamicEmail.controller.ts:250 | the message is `Email sent to N recipients`, with ` (F failed)` only when F > 0 |
| Campaign.SendCampaign | server/src/controllers/admin/dynamicEmail.controller.ts:151-254 | an empty id list, then a falsy subject or body, then a malformed id (the CastError of `$in`) are refused before any send and before cleanup, so no file is deleted. Otherwise every resolved user is attempted, sent + failed is their number, every file is deleted, and the reply carries the message and the report |
| CampaignPage.ValidTypesMatchServer | client/app/admin/email-campaign/page.tsx:104-107 | the page's type list is the server's |
| CampaignPage.OfferedVariablesAreFilled | client/app/admin/email-campaign/page.tsx:186-190 | each offered variable is one the server fills in |
| CampaignPage.ValidFilesIff | client/app/admin/email-campaign/page.tsx:109-119 | a chosen file is kept exactly when its type is allowed and it is at most 10 MB |
| CampaignPage.KeptFilesPassUpload | client/app/admin/email-campaign/page.tsx:109-125 | up to five kept files always pass the server's upload rules |
| CampaignPage.ToggledMembership | client/app/admin/email-campaign/page.tsx:80-88 | toggling flips the id's membership, leaves every other id alone, and keeps the selection free of duplicates |
| CampaignPage.ToggleTwice | client/app/admin/email-campaign/page.tsx:80-88 | toggling twice restores the selection's members, and the selection itself when the id was absent |
| CampaignPage.DedupDistinct | client/app/admin/email-campaign/page.tsx:91 | a `Set` built from distinct ids keeps them all, in order |
| CampaignPage.RemoveAt | client/app/admin/email-campaign/page.tsx:129 | exactly the entry at that index goes, the rest keep their order, and an index out of range changes nothing |
| CampaignPage.Page.ToggleRecipient | client/app/admin/email-campaign/page.tsx:80-88 | the selection becomes the toggled one and nothing else changes |
| CampaignPage.Page.SelectAll | client/app/admin/email-campaign/page.tsx:90-92 | the selection holds exactly the loaded recipients' ids |
| CampaignPage.Page.ClearSelection | client/app/admin/email-campaign/page.tsx:94-96 | the selection becomes empty |
| CampaignPage.Page.InsertVariable | client/app/admin/email-campaign/page.tsx:98-100 | `{{key}}` is appended to the body |
| CampaignPage.Page.HandleFileChange | client/app/admin/email-campaign/page.tsx:102-126 | the kept files are appended in order exactly when the total stays at most five; otherwise nothing changes. So the list never exceeds five |
| CampaignPage.Page.RemoveAttachment | client/app/admin/email-campaign/page.tsx:128-130 | exactly that index is removed |
| CampaignPage.Page.PreviewRequest | client/app/admin/email-campaign/page.tsx:132-145 | no request without a selection; the title goes as typed |
| CampaignPage.Page.HandleSend | client/app/admin/email-campaign/page.tsx:154-184 | no request without a selection, a subject and a body. The title falls back to the subject. A successful send resets subject, title, body, files and selection; a failure changes nothing |
| UsersPage.NotAnArrayShowsNone | client/app/admin/users/page.tsx:197 | something other than an array shows no users |
| UsersPage.EmptyTermKeepsAll | client/app/admin/users/page.tsx:199 | an empty term keeps every user, in order |
| UsersPage.FilterUsersIff | client/app/admin/users/page.tsx:198-205 | a user is shown exactly when the lower-cased name or email contains the lower-cased term, a missing field never matching |
| UsersPage.FilterUsersAppend | client/app/admin/users/page.tsx:198-205 | filtering commutes with concatenation, so the loaded order is kept |
| UsersPage.AddUserForm.ResetForm | client/app/admin/users/page.tsx:115-122 | name, email, unit, bulk text, reason and selected user are cleared |
| UsersPage.AddUserForm.HandleAddUser | client/app/admin/users/page.tsx:124-144 | non-empty bulk text is sent as is and wins. Otherwise a blank trimmed name or email is refused with the form's message, and both are sent untrimmed. The form is reset only after a successful request |
| UsersPage.SingleRequestAccepted | client/app/admin/users/page.tsx:130-133 | a single-user request the form lets through passes the server's input checks with the fields as typed |
| UsersPage.BulkRequestHasData | client/app/admin/users/page.tsx:127-128 | a bulk request is never refused for missing data |

## Findings

| source | as written | input that shows it | evidently intended | confidence | as-written member | corrected member |
|---|---|---|---|---|---|---|
| server/src/controllers/admin/unit.controller.ts:108-109 | `updateMany({unit: id}, {$set: {unit: undefined}})`. Mongoose 6 and later drop the undefined value, so the update is empty (older versions store `null`). Either way the unit's users keep a non-absent unit, and `unitId=unassigned` (`$exists: false`) does not list them | a unit with one intern, then `DELETE` of that unit, then the user list with `unitId=unassigned` | the comment on line 108: the users are detached, so they show up as unassigned | not executed; the stored value depends on the Mongoose version, the missing listing does not | UnitController.DeleteUnitAsWritten, UnitController.FormerMembersNotUnassigned | UnitController.DeleteUnit, UnitController.ClearedMembersUnassigned |

## Left out

- The database driver is not modelled: `populate`, `lean`, `countDocuments` and the duplicate-key error E11000. The unique indexes are store invariants; a lookup precedes every insert that could violate them.
- `Numerals.CastObjectId`: only strings are cast. A 12-character string, which some driver versions read as the raw bytes of an ObjectId, counts as malformed here. The CastError and ValidationError texts follow the wording of recent Mongoose versions.
- `AdminController.GetUsers`: users with the same `createdAt` come in store order. MongoDB leaves their order open, and it may differ from one page request to the next.
- `AdminController.AddInterns`: every user one request creates is stamped with the request's time `now`. The source reads `Date.now` at each `create`, so later users of a batch may carry later times.
- `JSON.parse` of the recipient ids is an opaque parsed list. A string that parses to something other than an array of strings is not modelled.
- The `$regex` search is a case-insensitive substring test. It is stated for terms without regular-expression metacharacters.
- `Text.Lower` maps only the ASCII letters; `toLowerCase` also maps other Unicode letters, which the model leaves unchanged. White space (`trim`, `\s`) is the full ECMAScript set.
- `Templates.ReplaceVariables`: `$` patterns in a replacement value (`$&`, `$1`) are not expanded. Values are inserted literally.
- `AdminController.GetUsers` requires page ≥ 1 and limit ≥ 1. `parseInt` giving NaN, zero or a negative page is left out.
- `Templates.GenerateEmailHtml` leaves out the stylesheet inside the page. The year is a parameter instead of the system clock.
- Authentication, tokens, bcrypt hashing, the rate limiter and the logger's output are not modelled. `UserModel.ComparePassword` takes the hash comparison as a parameter.
- The mail relay and `fs.unlink` are parameters. Which attempts fail is whatever they answer.
- Upload middleware internals are reduced to the check order: file count, empty name, field name, type, size. The disk storage and its directory creation are not modelled.
- `Campaign.PreviewIds`: the uploaded files of a preview are not deleted by the source either; the model does not track them.
- The `updatedAt` stamp of user documents (the user schema sets `timestamps: true`) is not modelled. The unit's is, and it moves only when a field changed.
- A `null` unit description is not modelled. A description is either absent or a string.
- Toasts, loading flags, modal visibility, effects, debouncing and rendering in the client pages are not modelled. So are the network calls; their success is the parameter `succeeded`.
- `Campaign.Dispatch` accumulates the report through the same step function as its specification, rather than by three separate counter updates.
