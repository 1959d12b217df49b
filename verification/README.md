# Sendly — a verified model of its data and routing core

Sendly is a small PHP/JavaScript chat application: users, contacts, groups
and messages are kept in Google Firestore, reached over the REST API by a
thin PHP client, and the browser side validates the sign-in forms and
drives the chat screen. This project models in Dafny the parts of it that
decide things:

- **Firestore client** (`config/database.php`). Module `Php` holds PHP values:
  ordered arrays with integer and string keys, including PHP's canonical-int
  key normalisation, `in_array`'s loose comparison (PHP 8 `==`, which
  compares two arrays key by key, ignoring entry order), `??`, `isset` and `empty`.
  Module `Codec` holds the tagged wire value with `toFirestoreValue` and
  `fromFirestoreValue`, document and collection decoding, the answers of
  `get` and `push`, and the `updateMask` query of `update`. The update-mask
  query uses `UrlEncoding` (PHP `urlencode`). `Base64Url` holds the string
  rewrite that makes the service-account assertion URL-safe.
- **Document store** (module `Store`). The database as the models see it:
  documents addressed by slash-separated paths, with `get`, `update`, `push`
  and `delete`. A freshly generated document id is a parameter; `None`
  stands for a failed push.
- **Models** (`models/*.php`). Modules `Messages`, `Groups`, `Contacts` and
  `Users` hold the operations written against that store. Module `Records`
  holds what they share: array literals, the random codes, lookup by code
  and the name sort key. Module `Sorting` holds the stable sort that
  `usort` performs.
- **Router** (`public/index.php`). Module `Router` models the URL clean-up
  and split, the action switch, the protected and authentication routes,
  the page and API targets, and the dash-to-camelCase method names.
- **Browser rules** (`public/assets/js/auth.js`, `public/assets/js/app.js`).
  Module `AuthRules` holds e-mail shape, password strength, the login,
  register and reset checks, and the error messages. Module `Client` holds
  message paths, the send guard, the file limit, emoji insertion, the list
  filter, code normalisation and the API URLs the client calls.

Clock readings (`time()`, seconds), the md5 hashes the codes are cut from,
`md5(session_id())`, and the ids Firestore assigns are all parameters. The
session is a `map<string, string>`. The set of controller files and their
methods is a `map<string, set<string>>`.

## Model

| member | source | states |
|---|---|---|
| Codec.EncodeArrayShape | config/database.php:96-110 | an array goes out as `arrayValue` exactly when its keys are 0..n-1 in order and it is non-empty, with the element values in order; otherwise, including the empty array, as `mapValue` with one field per key |
| Php.KeysAreRangeIsList | config/database.php:98 | the test `array_keys($a) === range(0, count($a)-1)` holds exactly for non-empty arrays keyed 0..n-1 in order, because `range(0,-1)` is `[0,-1]` |
| Codec.Decode | config/database.php:118-149 | a `mapValue` or `arrayValue` always decodes to an array |
| Codec.RoundTrip | config/database.php:85-149 | every well-formed PHP value (64-bit ints, normalised keys, each key once) decodes back to itself after encoding |
| Codec.FieldsRoundTrip | config/database.php:154-164 | the `fields` of a document decode back to the entries that were encoded, provided each value round-trips |
| Codec.FromDocument | config/database.php:154-164 | a document yields an array exactly when it has a `fields` member |
| Codec.GetCases | config/database.php:189-209 | `get` gives null for any status but 200; a single-document body decodes as that document, and gives null without `fields`; a body with `documents` always gives an array |
| Codec.GetCollection | config/database.php:196-205 | a collection listing is keyed by each document's id, with that document's decoded fields |
| Codec.Listing | config/database.php:199-204 | one entry per listed document, in order, keyed by the last segment of its name |
| Codec.DocumentKeyOfName | config/database.php:201-202 | a document named `prefix/id` is filed under `id` |
| Codec.PushReturnsId | config/database.php:312-320 | a push answered with `.../collection/id` returns `id` on status 200 and null on any other status |
| Codec.UpdateMaskNamesKeys | config/database.php:245-249 | decoding the update mask gives back exactly the UTF-8 key names of the data, in order |
| Codec.WriteFieldsMatchMask | config/database.php:251-254 | the body of an update names the same keys as its mask, in the same order, and its fields decode back to the data |
| UrlEncoding.UrlDecodeEncode | config/database.php:246 | `urlencode` loses nothing: decoding its output gives the UTF-8 bytes of the input |
| UrlEncoding.UrlEncodeHasNoDelimiter | config/database.php:245-247 | an encoded key never contains `&`, `=` or `#`, so the mask parameters cannot run into each other |
| Base64Url.UrlSafeAlphabet | config/database.php:47-48 | the rewritten text contains no `+`, `/` or `=` |
| Base64Url.RestoreUrlSafe | config/database.php:47-48 | the rewrite of `base64_encode` output can be undone: mapping `-`/`_` back and re-padding to a multiple of 4 recovers it |
| Base64Url.JwtParts | config/database.php:53-56 | splitting the assertion on `.` gives back its three rewritten parts |
| Store.Update | config/database.php:243-280 | the answer is true exactly for status 200; a failed update leaves the store as it was; a successful one merges the data over the document's old fields; every other document is unchanged either way; paths stay unique |
| Store.Push | config/database.php:285-321 | a failed push changes nothing; a successful one adds one new document under `collection/id` holding the data and touches nothing else |
| Store.Delete | config/database.php:326-353 | the answer is true exactly for status 200; a failed delete leaves the store as it was; a successful one removes the document; every other document is unchanged either way |
| Store.ReadDoc | config/database.php:154-164 | a document with no fields reads as null, otherwise as its fields |
| Store.ReadAfterUpdate | config/database.php:243-280 | reading a path after a successful non-empty update gives the merged fields; after a failed one it gives what it gave before |
| Store.ListAfterPush | config/database.php:285-321 | after a push into a collection, listing the collection shows the new document under its id |
| Store.ChildrenAfterPush | config/database.php:196-205 | a push appends exactly one entry to the collection listing |
| Messages.ChatId | models/MessageModel.php:89-93 | the chat id is `chat_` + the smaller id + `_` + the larger, in code-point order |
| Messages.ChatIdSymmetric | models/MessageModel.php:89-93 | both parties derive the same chat id |
| Messages.ChatIdAgreesOnText | models/MessageModel.php:89-93 | unless both ids are numeric strings (PHP 8 grammar: blanks, sign, digits, fraction, exponent), the id as written is the symmetric one |
| Messages.ChatIdAsWrittenNotSymmetric | models/MessageModel.php:89-93 | with PHP's default comparison, "01" and "1", and likewise ".5" and "0.5", get two different chat ids depending on the caller |
| Messages.TieBreaksSymmetry | models/MessageModel.php:89-93 | any two numeric ids of equal value whose first characters differ get two different ids |
| Messages.ChatIdAsWrittenSymmetricWithoutTies | models/MessageModel.php:89-93 | when the two ids are equal or do not compare equal (numeric strings compared by value, others byte-wise), the written derivation is symmetric |
| Messages.RoomIsShared | models/MessageModel.php:31-35 | with the written `getChatId`, both parties of a contact chat use one room unless their ids tie, and every member of a group uses `group_<id>` |
| Messages.MessageRecord | models/MessageModel.php:18-28 | a stored message has status `sent`, the send time in milliseconds, the given sender, receiver and text, and null for each file field it was not given |
| Messages.SendMessageStores | models/MessageModel.php:17-38 | a failed push leaves the store as it was; a successful one returns the new id and stores the message record under the room the written `getChatId` gives the sender |
| Messages.ByTimestampSpec | models/MessageModel.php:60-62 | the sort keeps every message and leaves them ordered by timestamp, oldest first |
| Messages.GetMessagesSpec | models/MessageModel.php:43-68 | no room (the written `getChatId` of the reader) gives no messages; otherwise every stored message, with its id, in timestamp order |
| Messages.GetMessagesHaveIds | models/MessageModel.php:52-57 | every returned message carries its id |
| Messages.ListedMessageIsReturned | models/MessageModel.php:50-57 | each stored message of the room is returned, with its id attached |
| Messages.GetLastMessage | models/MessageModel.php:98-101 | there is no last message exactly when the list is empty |
| Messages.LastMessageIsNewest | models/MessageModel.php:98-101 | the last message is the final element of the list and no message is newer |
| Messages.GetMessagesStable | models/MessageModel.php:60-62 | messages with the same timestamp are returned in the order the room stores them |
| Messages.LastMessageIsLatestStored | models/MessageModel.php:98-101 | of the stored messages that share the newest timestamp, `end()` returns the one stored last |
| Messages.SentMessageIsListed | models/MessageModel.php:17-38 | after a send into a new room, reading the room lists the message under its new id |
| Messages.SentMessageIsRead | models/MessageModel.php:17-68 | when the two ids do not tie, a message A sends to contact B is among the messages B reads for A, with its id and text |
| Messages.SentMessageMissedOnTie | models/MessageModel.php:17-68 | when the ids tie (numeric, equal value, different first characters), a message A sends into an empty store is not among the messages B reads for A |
| Groups.CreateGroup | models/GroupModel.php:24-50 | the result is null, and nothing is written, exactly when the push fails; otherwise it is the new id with the generated code, whatever the reference update answered |
| Groups.AddGroupToUser | models/GroupModel.php:55-59 | the answer is true exactly for status 200, a failure writes nothing, and no document but the user's reference changes |
| Groups.CreatedGroupStored | models/GroupModel.php:24-50 | the new group names its creator and code and has the creator as sole member when no members were given; the creator's group list records the join time when that update succeeds |
| Groups.GroupRecord | models/GroupModel.php:25-33 | the group literal holds the creator, the code and the given members, defaulting to the creator alone |
| Groups.GetGroup | models/GroupModel.php:91-97 | a group is returned exactly when its document reads non-null, with its id attached |
| Groups.GetMembers | models/GroupModel.php:154-157 | a missing group has no members; otherwise the members are the group's stored `members` |
| Groups.GroupMembers | models/GroupModel.php:154-157 | the members read through `getGroup` are the stored members |
| Groups.CollectSpec | models/GroupModel.php:64-79 | the collected list holds exactly the referenced groups that still exist |
| Groups.GetGroupsSpec | models/GroupModel.php:64-86 | the user's groups are exactly the collected ones, ordered by name ignoring case |
| Groups.AddMember | models/GroupModel.php:116-130 | true exactly when the group exists, whatever the writes answer; a missing group or an existing member leaves the store unchanged |
| Groups.AddedMemberIsListed | models/GroupModel.php:116-130 | a successful member update appends the user once and a failed one leaves the group as it was; a duplicate-free list stays duplicate-free; the other group fields are kept; a successful reference update records the group in the user's list |
| Groups.AppendKeepsNoDuplicates | models/GroupModel.php:120-121 | appending a non-member keeps the list free of loosely equal duplicates |
| Groups.RemoveMember | models/GroupModel.php:135-149 | true exactly when the group exists, whatever the writes answer; a missing group leaves the store unchanged |
| Groups.RemovedMemberIsGone | models/GroupModel.php:135-149 | a successful update makes the members the others in order and re-indexed, a failed one leaves the group as it was, and the other group fields are kept; the user's reference is deleted when the delete succeeds and kept when it fails |
| Groups.RemoveWrites | models/GroupModel.php:143-144 | the member update, when it succeeds, stores exactly the kept list and leaves the other group fields; the delete, when it succeeds, removes the user's reference; each failed write leaves its document as it was |
| Groups.Others | models/GroupModel.php:140-143 | the filter keeps every member except the user, each as often as before |
| Groups.KeptMembers | models/GroupModel.php:140-144 | the user is gone, everyone else is kept with their count, and the result is a list keyed 0..n-1 |
| Groups.OthersIdentity | models/GroupModel.php:140-143 | removing a non-member changes nothing, and removing twice is removing once |
| Groups.GroupByCodeFound | models/GroupModel.php:162-177 | a group found by code carries the upper-cased code and its id; none is found when the listing fails |
| Groups.JoinGroup | models/GroupModel.php:182-210 | success exactly when the message is the join message, whatever the writes answer; a failure writes nothing and carries no data |
| Groups.JoinGroupOutcome | models/GroupModel.php:182-210 | an unknown code and an existing member fail; otherwise the join succeeds and returns the group |
| Groups.JoinedMemberIsListed | models/GroupModel.php:198-203 | after a join the user is appended to the members when the member update succeeds, and the user's list records the group when the reference update succeeds |
| Contacts.TaggedSpec | models/ContactModel.php:23-29 | exactly the array entries are kept, each with its id attached |
| Contacts.GetContacts | models/ContactModel.php:17-39 | every contact returned is an array with an id |
| Contacts.GetContactsSpec | models/ContactModel.php:17-39 | no data gives no contacts; otherwise a rearrangement of the tagged entries, ordered by name ignoring case |
| Contacts.GetContact | models/ContactModel.php:44-50 | a contact is returned exactly when its document exists, with its id and all stored fields |
| Contacts.Filter | models/ContactModel.php:72-75 | `array_filter` keeps exactly the flagged elements, in order, under their original keys |
| Contacts.SearchSpec | models/ContactModel.php:69-76 | search returns exactly the contacts whose name or phone contains the query ignoring case, in list order |
| Contacts.EmptyQueryKeepsAll | models/ContactModel.php:69-76 | an empty query keeps every contact |
| Contacts.AddContactByCode | models/ContactModel.php:81-126 | success exactly when the message is the success message; a failure writes nothing and carries no data |
| Contacts.AddContactGuards | models/ContactModel.php:85-101 | unknown code, own code, and already a contact are checked in that order, each with its own message |
| Contacts.AddedContactStored | models/ContactModel.php:104-125 | the stored contact has the target's id, its defaults, the creation time, and is returned with its new id |
| Contacts.SavedContactStored | models/ContactModel.php:104-125 | the saved contact takes each of the target's fields or its default |
| Users.CreateUser | models/UserModel.php:24-40 | the answer is true exactly when the update gets status 200; a failure changes nothing; no other document is touched |
| Users.CreateUserKeeps | models/UserModel.php:24-40 | after a successful update status is online and last_seen now; an existing creation time and code are kept, new ones are set otherwise; any other field stays |
| Users.UserByCodeFound | models/UserModel.php:45-60 | a user is found exactly when some listed user has the upper-cased code, and carries that code and an id |
| Users.UpdateStatusWritesTwoFields | models/UserModel.php:72-77 | a successful status update writes status and last_seen and no other field; no other document changes either way |
| Users.UpdateStatus | models/UserModel.php:72-77 | the answer is true exactly when the update gets status 200, and a failure changes nothing |
| Users.GetCurrentUser | models/UserModel.php:89-100 | the session afterwards holds both ids, the result is those values, and other session entries stay |
| Users.CurrentUserIsStable | models/UserModel.php:89-100 | a full session is returned unchanged; otherwise a `user_` + 8-character id and a `User ` + last-4 name are made once and then kept |
| Records.FindByCodeSpec | models/UserModel.php:45-60 | lookup by code succeeds exactly when some record matches, and returns the first match with its id |
| Records.FoundHasCode | models/GroupModel.php:162-177 | the record found carries the upper-cased code and an id |
| Records.CodeFrom | models/GroupModel.php:17-19 | a code is the first 8 characters of the hash, upper-cased |
| Records.MergeKeeps | models/UserModel.php:24-40 | merging a literal keeps every field it does not name |
| Sorting.SortByCorrect | models/ContactModel.php:31-33 | the sort returns a rearrangement of its input in key order |
| Sorting.SortByStable | models/MessageModel.php:60-62 | PHP 8 `usort` is stable: the elements sharing a key come out in their input order |
| Php.LooseEqSymmetric | models/GroupModel.php:120 | `==`, as `in_array` uses it, is symmetric |
| Php.LooseEqIntString | models/GroupModel.php:121 | an integer and a string are `==` exactly when the string is numeric with that value, and an integer equals its own numeral |
| Php.LooseEqNumericStrings | models/GroupModel.php:194 | two different strings can be `==`: "01" and "1", ".5" and "0.5" |
| Php.LooseEqStrings | models/GroupModel.php:121 | unless both strings are numeric, `==` on strings is plain equality |
| Php.LooseEqReflexive | models/GroupModel.php:121 | every value, arrays included, is `==` to itself, so `in_array` finds a member just appended |
| Php.LooseEqListOfNumeral | models/GroupModel.php:121 | arrays compare their values with `==`: `[n] == ["n"]` for every integer n |
| Php.LooseEqSwapped | models/GroupModel.php:121 | the order of an array's entries does not matter to `==` |
| Php.LooseEqNeedsSameKeys | models/GroupModel.php:121 | arrays with different keys are not `==`, even with the same values |
| Php.DecimalIsNumeric | models/MessageModel.php:91 | the decimal numeral of any integer is a numeric string with that value |
| Router.RTrimSlash | public/index.php:30 | the URL loses exactly its trailing slashes |
| Router.Sanitize | public/index.php:31 | the filtered URL holds only URL characters and leaves clean input alone |
| Router.UrlParts | public/index.php:32 | there are no parts exactly when the URL is empty or "0", and no part contains `/` |
| Router.UrlPartsJoin | public/index.php:30-32 | the parts join back into the cleaned URL |
| Router.SegmentsOfUrl | public/index.php:30-32 | a clean path without a trailing slash splits back into its segments |
| Router.ActionRoute | public/index.php:43-72 | exactly the four known actions reach a controller, always ContactController or GroupController; any other action is answered 404 |
| Router.NotFoundOnlyForActions | public/index.php:40-74 | a 404 happens exactly for a non-empty unknown action, and any non-empty action is answered by the switch |
| Router.ProtectedNeedsLogin | public/index.php:83-90 | a protected route without login redirects to `/` |
| Router.SignedInSkipsForms | public/index.php:118-123 | a signed-in request for login or register redirects to `/chat` |
| Router.RedirectsFollowLogin | public/index.php:83-123 | every redirect is one of these two |
| Router.RootRoute | public/index.php:93-114 | the root shows the chat when signed in, else the register form for intent `register`, else the login form |
| Router.PageRoute | public/index.php:132-134 | a page URL calls `ucfirst(seg0)Controller->seg1(seg2..)`, defaulting to `index`, or the home page when there is no such method |
| Router.ApiRoute | public/index.php:137-150 | an API URL calls `ucfirst(seg1)Controller` with the camel-cased `seg2` and `seg3..`, or the home page |
| Router.CamelCaseOfWords | public/index.php:142-147 | a dash-case name becomes its first word lower-case-initial followed by every other word capitalised |
| Router.CamelCaseOfWord | public/index.php:142-147 | a name without dashes only has its first letter lower-cased |
| Router.AddByCodeName | public/index.php:142-147 | `add-by-code` becomes `addByCode` |
| Router.CallsNameAController | public/index.php:153-184 | every call goes to an existing controller method or to one of the fixed controllers |
| AuthRules.ValidEmailShape | public/assets/js/auth.js:344-346 | the e-mail test accepts exactly a non-blank run without `@`, an `@`, a run, a `.`, and a run |
| AuthRules.Score | public/assets/js/auth.js:270-275 | the score lies in 0..5 |
| AuthRules.FullScore | public/assets/js/auth.js:270-275 | the score is 5 exactly when all five criteria hold |
| AuthRules.StrengthOf | public/assets/js/auth.js:262-293 | no label for an empty password; weak at score 2 or less, medium at 3, strong from 4 |
| AuthRules.ScoreGrows | public/assets/js/auth.js:262-293 | typing one more character never lowers the score or the label |
| AuthRules.StrongIsMixed | public/assets/js/auth.js:270-291 | a strong password has at least three of the four character classes |
| AuthRules.EmailErrors | public/assets/js/auth.js:415-421 | at most one e-mail error, and none exactly when the trimmed e-mail has the valid shape |
| AuthRules.LoginErrors | public/assets/js/auth.js:404-428 | at most one error per field |
| AuthRules.LoginProceeds | public/assets/js/auth.js:404-428 | login goes ahead exactly with a valid trimmed e-mail and a non-empty password |
| AuthRules.NameErrors | public/assets/js/auth.js:477-483 | no name error exactly when the trimmed name has at least 2 UTF-16 units |
| AuthRules.PasswordErrors | public/assets/js/auth.js:493-499 | no password error exactly when it has at least 6 UTF-16 units |
| AuthRules.ConfirmErrors | public/assets/js/auth.js:501-507 | no confirmation error exactly when it is non-empty and equals the password |
| AuthRules.TermsErrors | public/assets/js/auth.js:509-512 | no terms error exactly when the box is absent or checked |
| AuthRules.RegisterOnePerField | public/assets/js/auth.js:477-514 | registration reports at most one error per field |
| AuthRules.RegisterProceeds | public/assets/js/auth.js:477-514 | registration goes ahead exactly when name, e-mail, password, confirmation and terms all pass |
| AuthRules.ResetErrors | public/assets/js/auth.js:639-655 | the reset request goes ahead exactly with a valid trimmed e-mail |
| AuthRules.ErrorMessage | public/assets/js/auth.js:382-400 | a known code gets its fixed message; any other gets the fallback text followed by the code |
| AuthRules.MessageNeverEmpty | public/assets/js/auth.js:382-400 | the message shown is never empty |
| Client.DirectPathNotShared | public/assets/js/app.js:480-482 | with the path as written, two users whose ids start with different characters write to different paths, whatever keys their contact records have |
| Client.DirectPathsDiffer | public/assets/js/app.js:480-482 | for ids without `_`, the two parties share a path exactly when they are the same user |
| Client.MessagePathShared | public/assets/js/app.js:480-482 | the corrected direct path, keyed on the contact record's `user_id`, is the same for two users holding each other as contacts, whatever their records' keys; a group path is the same for every member |
| Client.MessagePathAgrees | public/assets/js/app.js:480-482 | the corrected path equals the written one when the record's key is the peer's id and the sender's id sorts first |
| Client.Send | public/assets/js/app.js:440-484 | no chat stops first; blank text with no file does nothing; otherwise the message goes to the path as written (`chats/<user>_<chat>` or `groups/<chat>`) with the trimmed text only if non-blank and the file only if given |
| Client.PushedMessageHasContent | public/assets/js/app.js:449-476 | a pushed message has non-blank text or a file, its text never starts or ends with white space, and it names the sender |
| Client.SelectFile | public/assets/js/app.js:520-529 | a file over 10 MiB is rejected, any other is previewed under its name |
| Client.SizeLimitIsDownwardClosed | public/assets/js/app.js:525 | a file no larger than an accepted one is accepted |
| Client.InsertEmoji | public/assets/js/app.js:607-616 | the text grows by the emoji and the cursor moves by its length |
| Client.EmojiAtCursor | public/assets/js/app.js:607-616 | the text is what came before the cursor, the emoji, and what came after; the cursor lands right after the emoji |
| Client.EmojiRemovable | public/assets/js/app.js:607-616 | cutting the emoji out at the old cursor gives back the original text |
| Client.Search | public/assets/js/app.js:236-251 | each item is shown exactly when its lower-cased name contains the trimmed lower-cased query |
| Client.BlankQueryShowsAll | public/assets/js/app.js:236-251 | a blank query shows every item |
| Client.SearchIgnoresCase | public/assets/js/app.js:237-245 | upper-casing the name or the query does not change what is shown |
| Client.PieceOfNameIsShown | public/assets/js/app.js:236-251 | typing any lower-case piece of a name keeps that item shown |
| Client.NormalizeCode | public/assets/js/app.js:654 | a normalised code is upper-case, and empty exactly when the input was blank |
| Client.CodeRequest | public/assets/js/app.js:654-659 | an empty code is rejected before any request; otherwise the normalised code is posted |
| Client.NormalizeIdempotent | public/assets/js/app.js:861 | normalising twice is normalising once |
| Client.ClientCallsFallBack | public/assets/js/app.js:662 | the three API URLs the client fetches land on the start page instead of a controller method |
| Client.ClientCallsReach | public/assets/js/app.js:662 | the corrected URLs reach `ContactController::addByCode`, `GroupController::add` and `GroupController::join` |

## Left out

- Transport: curl, headers, the TLS flag, JSON text and network failures are not modelled. A response is its status code and its decoded body.
- The OAuth exchange and RSA signing in `getAccessToken` are not modelled. Only the base64url rewrite of the three parts is.
- `doubleValue` is not modelled, because floats have no faithful model here. Such a wire value is `Untagged` and decodes as null.
- The final `(string)` fallback of `toFirestoreValue` is not modelled: it applies only to objects, which are not PHP values of this model.
- `set` is not modelled, because no model calls it. Its body is the same `fields` encoding as `update` and `push` (`Codec.WriteFields`).
- Firestore's own behaviour is reduced to a store of documents by path. Listing order is document creation order, and path-segment parity is not checked.
- Integer width: values are unbounded, and `WellFormed` restricts the round trip to 64-bit integers. PHP's saturation of `(int)` on out-of-range digit strings is not modelled.
- Groups.GetMembers: a stored `members` that is not an array is returned as it is, and the contract says nothing about that case.
- Groups.AddMember and Groups.RemoveMember: the source raises a TypeError when `members` is not an array; the model treats such a value as an empty list.
- Groups.JoinGroup and Groups.JoinGroupOutcome: a group whose `members` is not an array is read as having no members, so the join succeeds. The source's `in_array` at models/GroupModel.php:194 raises a TypeError there.
- Messages.Numeric: only integer numerals are read as timestamps. A string such as "1.5e3" (1500 in PHP) is cut at its first non-digit, and a non-numeric string or an array counts as 0. The subtraction at models/MessageModel.php:61 raises a TypeError on those, and `usort`'s truncation of a non-integer difference is not modelled.
- Php.LooseEq and Messages.PhpCompare: numeric strings are compared by their exact value. PHP compares them as IEEE doubles, so rounding, overflow to infinity and the fallback for integer strings beyond 64 bits are not modelled.
- Store.Update: the data must be non-empty. An update with an empty field mask (which Firestore treats as a whole-document replace or rejects) is not modelled; every caller in the models names at least one field.
- Case folding covers ASCII only. This matches PHP 8's `strtolower`/`strtoupper`/`ucfirst`/`lcfirst`/`strcasecmp`, but it is narrower than JavaScript's `toLowerCase`/`toUpperCase` on non-ASCII letters.
- `insertEmoji` positions are UTF-16 code units (`Client.Unit`). The browser's conversion from characters to units is not modelled.
- `getErrorMessage` on codes that name built-in object properties (such as `constructor`) is not modelled. There the source's object lookup would find an inherited member.
- Thin wrappers over one store call are covered by the `Store` contracts rather than modelled separately: `getUser`, `updateProfile`, `updateGroup`, `deleteGroup`, `updateContact`, `deleteContact`, `markAsRead` and `deleteMessage`.
- Controllers, views, session and cookie handling, and file upload are not modelled. The router only records which controller method it would call.
- The Firebase browser SDK (authentication, realtime listeners, storage), DOM wiring, toasts, modals and `formatTime` are not modelled.
- The stray `join` token in `app.js` is not modelled.
- The generated Data Connect wrappers and the configuration constants are not modelled.

## Findings

| source | as written | input that shows it | evidently intended | confidence | as-written member | corrected member |
|---|---|---|---|---|---|---|
| models/MessageModel.php:89-93 | `sort()` with the default comparison orders numeric strings by value, so "01" and "1" (or ".5" and "0.5") compare equal and keep the caller's order; a message sent by one party is stored in a room the other never reads | parties "01" and "1": `chat_01_1` for one, `chat_1_01` for the other | one chat id per pair, whatever the order of the two ids | not executed | Messages.ChatIdAsWrittenNotSymmetric, Messages.SentMessageMissedOnTie | Messages.ChatIdSymmetric |
| public/assets/js/app.js:480-482 | a direct chat's path is `chats/${userId}_${chatId}`, where `chatId` is the key of the caller's own contact record (views/chat/index.php:72, models/ContactModel.php:25, models/ContactModel.php:113), so each party writes under its own id and its own record key | users "a" and "b" whose contact records have keys K1 and K2: `chats/a_K1/messages` and `chats/b_K2/messages` | one path per pair of users, keyed on the contact record's `user_id` | not executed | Client.DirectPathNotShared | Client.MessagePathShared |
| public/assets/js/app.js:662 | the client fetches `api/contacts/add-by-code`, `api/groups/add` and `api/groups/join`; the router looks for `ContactsController`/`GroupsController`, which have no file, and shows the start page | the URL `api/contacts/add-by-code` with no action | the calls reach `ContactController::addByCode`, `GroupController::add` and `GroupController::join` | not executed | Client.ClientCallsFallBack | Client.ClientCallsReach |
