# Chat backend core, modelled in Dafny

This project models the sequential, table-shaped logic of a Django chat
backend: user accounts and their input rules, friendships, one-to-one
conversations with their messages, token authentication of WebSocket
connections, and the presence and notification fan-out over a channel
layer. Each source file of that core gets one Dafny module.

- **Tables.** Each table is a `seq` of rows in primary-key order. A
  `Store.Database` class holds the tables and their next primary keys.
  `Store.TablesValid` states every constraint the schema and the models'
  `clean` methods keep:
  - ascending keys;
  - unique usernames and e-mails;
  - unique friendship and conversation pairs in either order;
  - unique ordered blacklist pairs;
  - every birthdate a real calendar date, as the date column demands;
  - resolvable foreign keys: every blacklist entry and friendship names
    stored users, every conversation side and message sender is NULL or a
    stored user, and every message's conversation and last message exists.
- **Views and serializers.** Each operation has two parts:
  - a pure function on table values, which the lemmas speak about;
  - a method on the `Database` that changes the tables. The method's
    `ensures` ties the new state to that function, and the method keeps
    `Valid()`.
- **Channel layer.** `Consumers.ChannelLayer` is a sequential map from room
  name to a set of channels, plus one outbound queue per channel.
  `Consumers.Consumer` is one WebSocket connection: its user, its room,
  whether it was accepted, its close code and the frames it sent.
- **HTTP answers.** They are the `Common.Response` datatype. The status codes
  are 200, 201, 204, 400, 403 and 404. A body is reduced to the ids it
  serializes, or to its `detail` text or its `serializer.errors` map.
- **Input rules.** The validators and the DRF field pipeline keep their exact
  order and messages:
  - CharField's whitespace trimming;
  - `required` and not-blank;
  - the declared validators;
  - `max_length`;
  - the null-character check.
  The regular expressions are modelled on ASCII, with Python's `$`, which
  also matches before one final newline.

Behaviour that follows the code rather than its comments or tests:

- An unknown friend or conversation partner escapes `is_valid` as the 404 of
  `get_object_or_404`. The model has it as an outcome of its own
  (`FriendNotFound`, `UserNotFound`).
- `ConversationsView.patch` checks no object permission. A caller who is not
  `user1` hides the conversation for `user2`; `ChatViews.OutsiderHidesSecondSide`
  proves this.
- A successful friendship `post` answers 200, not 201 (`OkObject`).
- `validate_birthdate` accepts the year 1900, although its message says
  "greater than 1900". It range-checks the year only, not the month or day.
- Validation checks a birthdate's form and year only, so `1900-13-99` or
  `1990-02-30` passes `is_valid`. `save()` then raises the ValidationError
  of `DateField.to_python`, which the views do not catch.
  `UserSerializers.ImpossibleBirthdateRefusedAtSave` shows this for
  `1900-13-99`.
- `authenticate` does not catch `MultipleObjectsReturned`. The model keeps
  it as the outcome `MultipleMatches`, and proves that in a valid table it
  arises only when one user's username is another user's e-mail.
- A conversation may be started with oneself: no self check is made.
- `ConversationsView.post` looks up an existing conversation with the raw
  `user2_username`, while the serializer strips the value. A missing name
  matches a side that was set to NULL.
- A malformed e-mail is reported twice. DRF's EmailField adds its own
  e-mail validator after the declared `validate_email`.
- The `Messages` model shown declares no visibility flags, but the views
  update `IsVisibleToUser1/2`. The model adds both flags to the message
  row and takes them to start out true.

## Model

| member | source | states |
|---|---|---|
| Validators.Search | backend/users/validators.py:16-23 | `re.search` of a character class finds a match exactly when some character of the string lies in the class |
| Validators.MatchPlusToEndMeaning | backend/users/validators.py:8 | `^[k]+$` matches exactly a non-empty string wholly in the class, or one whose only outsider is a single final newline (Python `$`) |
| Validators.ValidateUsername | backend/users/validators.py:5-10 | on success the username is returned unchanged |
| Validators.UsernameRule | backend/users/validators.py:5-10 | accepted iff at least 5 characters, all ASCII letters, digits or `_` (a final newline slips through `$`); under 5 gives the length message, else the character-set message |
| Validators.ValidatePassword | backend/users/validators.py:13-24 | on success the password is returned unchanged |
| Validators.PasswordRule | backend/users/validators.py:13-24 | accepted iff length >= 8 and it has a digit, an uppercase, a lowercase and a special character; each failure message appears exactly when that check is the first to fail |
| Validators.UnderscoreIsNotSpecial | backend/users/validators.py:22 | `_` is a word character, so a password whose only symbol is `_` gets the special-character message |
| Validators.HyphenIsSpecial | backend/users/validators.py:22 | a hyphen counts as a special character |
| Validators.ValidateName | backend/users/validators.py:26-31 | on success the name is returned unchanged |
| Validators.NameRule | backend/users/validators.py:26-31 | accepted iff at least 2 characters, all ASCII letters or whitespace; the length message comes before the character-set message |
| Validators.ValidateBirthdate | backend/users/validators.py:33-41 | on success the birthdate is returned unchanged |
| Validators.BirthdateRule | backend/users/validators.py:33-41 | a string not of shape NNNN-NN-NN gets the format message; a well-shaped one gets the year message iff its year is below 1900; accepted iff well-shaped with year >= 1900 |
| Validators.BirthdateTooEarlyExample | backend/users/validators.py:35-37 | `1899-01-01` gets "Year must be greater than 1900." |
| Validators.BirthdateUncheckedExample | backend/users/validators.py:35-41 | `1900-13-99` is accepted: year 1900 passes and month and day are not range-checked |
| Validators.BirthdateFormatExample | backend/users/validators.py:39-40 | a day-first date gets the format message |
| UserModels.NewUser | backend/users/models.py:7-15 | a new user has `IsOAuth` and `IsOnline` false and the given key, username, e-mail and password |
| UserModels.DisplayIdentifiesUser | backend/users/models.py:33-34 | `str(user)` is the username, so in a valid table it tells any two rows apart |
| UserModels.FindByUsername | backend/friendships/serializers.py:53 | the lookup by username finds a row iff one has that name, and returns such a row |
| UserModels.FindById | backend/chat_app/middlewares.py:20 | the lookup by primary key finds a row iff one has that key, and returns such a row |
| UserModels.FindByEmail | backend/users/serializers.py:193 | the lookup by e-mail finds a row iff one has that e-mail, and returns such a row |
| UserModels.UsernameDeterminesUser | backend/users/models.py:8 | in a valid table (unique usernames) two rows with the same username are the same row |
| UserModels.SaveRow | backend/users/models.py:8-12 | saving a row with a key fails iff its birthdate is no real date, the key is missing, or another row has its username or e-mail; an impossible date fails first, with the invalid-date or date-format message; otherwise exactly that row is replaced |
| UserModels.SaveRowPreservesValid | backend/users/models.py:8-12 | a successful save keeps the users table valid; writing a row back with its own username and e-mail succeeds iff its birthdate is a real date |
| UserModels.SaveRowKeepsKeys | backend/users/models.py:7-15 | a save keeps the table's length, every primary key, and so the set of keys other tables may name |
| UserModels.InsertRow | backend/users/models.py:8-12 | an INSERT fails iff the birthdate is no real date (with the date column's ValidationError) or the username or e-mail is taken (with the integrity error); otherwise the row is appended |
| UserModels.InsertRowPreservesValid | backend/users/models.py:8-12 | inserting with the next key keeps the table valid, the keys below the advanced counter, and adds exactly the new key |
| UserModels.DaysInMonth | backend/users/models.py:12 | a month has 28 to 31 days, and 29 exactly for February of a leap year |
| UserModels.LeapDayIn2000 | backend/users/models.py:12 | `2000-02-29` is a date the column stores |
| UserModels.NoLeapDayIn1900 | backend/users/models.py:12 | `1900-02-29` is well-formed but no date: 1900 is not a leap year |
| UserModels.NoThirtiethOfFebruary | backend/users/models.py:12 | `1990-02-30` is well-formed but no date |
| UserModels.UserIds | backend/users/models.py:7 | the keys a foreign key to `Users` may name are exactly the rows' keys |
| UserModels.SameKeysSameIds | backend/users/models.py:7 | rows with the same keys in the same places give the same key set |
| UserModels.AppendIds | backend/users/models.py:7 | appending a row adds exactly its key |
| UserModels.WithoutUserIds | backend/users/models.py:7 | deleting user `uid` removes exactly that key |
| UserModels.BlacklistWithoutUserUsersIn | backend/users/models.py:38-41 | after the CASCADE every blacklist entry names stored users other than `uid` |
| UserModels.WithoutUser | backend/users/models.py:7-15 | after deleting user `uid` every remaining row is an old row with another key |
| UserModels.WithoutUserKeeps | backend/users/models.py:7-15 | deleting user `uid` keeps every other user's row |
| UserModels.WithoutUserValid | backend/users/models.py:7-15 | deleting a user keeps the table valid, the keys below the counter, and no row with that key |
| UserModels.CanAddBlock | backend/users/models.py:45 | a blacklist entry may be added iff the table stays unique on the ordered pair (user, blocked_user) |
| UserModels.ReverseBlockAllowed | backend/users/models.py:45 | when A has blocked B, B may still block A: uniqueness is on the ordered pair |
| UserModels.BlacklistWithoutUser | backend/users/models.py:38-41 | CASCADE on both keys: exactly the entries naming `uid` on neither side survive, and uniqueness is kept |
| UserModels.BlacklistWithoutUserUnique | backend/users/models.py:38-45 | the blacklist after a user's deletion is still unique and never names that user |
| UserSerializers.Strip | backend/users/serializers.py:42-51 | CharField's trimming leaves no whitespace at either end |
| UserSerializers.StripIdempotent | backend/users/serializers.py:42-51 | trimming a trimmed value changes nothing |
| UserSerializers.Field | backend/users/serializers.py:42-44 | a field has no messages iff it is present (or optional and absent), not blank after trimming, and passes its checks; absent-required gives "This field is required.", blank gives "This field may not be blank." |
| UserSerializers.StrippedNoFinalNewline | backend/users/serializers.py:42-51 | a trimmed value never ends in a newline, so Python's `$` cannot let one through |
| UserSerializers.UsernameChecksMeaning | backend/users/serializers.py:42-51 | the username checks pass iff 5 to 30 characters, all word characters, and (with the UniqueValidator) not already taken |
| UserSerializers.UsernameMessagesMeaning | backend/users/serializers.py:42-51 | the username field passes iff it is present and its trimmed value is acceptable |
| UserSerializers.EmailMessagesMeaning | backend/users/serializers.py:52-61 | the e-mail field passes iff present, a valid address, not taken, at most 100 characters, without NUL; a malformed address is reported first and last |
| UserSerializers.NameChecksMeaning | backend/users/serializers.py:62-67 | the name checks pass iff 2 to 30 ASCII letters or whitespace |
| UserSerializers.NameMessagesMeaning | backend/users/serializers.py:62-67 | a name field passes iff present and its trimmed value is acceptable |
| UserSerializers.DateShapeNoNul | backend/users/serializers.py:68 | a well-shaped date never contains NUL |
| UserSerializers.BirthdateChecksMeaning | backend/users/serializers.py:68 | the birthdate checks pass iff the value is a well-shaped date with year >= 1900 |
| UserSerializers.BirthdateMessagesMeaning | backend/users/serializers.py:68 | the optional birthdate passes iff absent or acceptable after trimming |
| UserSerializers.PasswordChecksMeaning | backend/users/serializers.py:72-76 | the password checks pass iff the strength rules hold and there is no NUL |
| UserSerializers.PasswordMessagesMeaning | backend/users/serializers.py:72-76 | the password field passes iff present and acceptable after trimming |
| UserSerializers.PlainMessagesMeaning | backend/users/serializers.py:77-79 | `confirm_password` passes iff present, not blank and without NUL |
| UserSerializers.ToErrors | backend/users/serializers.py:81-93 | `serializer.errors` names exactly the fields that have messages, and is empty iff no field has any |
| UserSerializers.ToErrorsLookup | backend/users/serializers.py:81-93 | with distinct field names each failing field maps to exactly its own messages |
| UserSerializers.RegisterFields | backend/users/serializers.py:83-93 | the registration checks cover the seven writable fields, in declaration order |
| UserSerializers.RegisterNamesDistinct | backend/users/serializers.py:83-93 | the seven registration field names are distinct |
| UserSerializers.RegisterSucceeds | backend/users/serializers.py:95-98 | registration validates iff every field passes and the trimmed passwords are equal |
| UserSerializers.RegisterAcceptance | backend/users/serializers.py:42-98 | registration validates iff each required field is present and acceptable, the birthdate is absent or acceptable, and the confirmation equals the password |
| UserSerializers.RegisterMismatch | backend/users/serializers.py:95-97 | when every field passes but the passwords differ, the only error is "Passwords must match." on `password` |
| UserSerializers.RegisterFieldErrorsFirst | backend/users/serializers.py:42-98 | when some field fails, the errors are exactly the failing fields with their own messages, and the password match is not reported |
| UserSerializers.RegisterCreate | backend/users/serializers.py:100-112 | `create` copies e-mail, username, names, birthdate and picture, stores `set_password`'s hash of the password, and takes the defaults for `IsOAuth`/`IsOnline` |
| UserSerializers.RegisterInsertOutcome | backend/users/serializers.py:100-111 | after validation the INSERT cannot fail on uniqueness: it succeeds iff the birthdate is a real date and otherwise fails with the invalid-date message; every column fits its declared width |
| UserSerializers.RegisterFieldsFit | backend/users/serializers.py:100-111 | every column of the created user fits its declared width |
| UserSerializers.ValidatedBirthdateForm | backend/users/serializers.py:68 | a validated birthdate is exactly `YYYY-MM-DD`, is stored iff its month and day exist, and is otherwise refused with the invalid-date message |
| UserSerializers.ImpossibleBirthdateRefusedAtSave | backend/users/models.py:12 | `1900-13-99` passes the birthdate validation, yet both INSERT and UPDATE refuse it with the invalid-date message |
| UserSerializers.RegisterSave | backend/users/serializers.py:100-112 | on the database: the created row is appended with the next key, or the INSERT's error (invalid date or integrity) is returned and nothing changes; other tables untouched |
| UserSerializers.ProfileFields | backend/users/serializers.py:167-188 | the profile checks cover its five fields, in declaration order |
| UserSerializers.ProfileAcceptance | backend/users/serializers.py:167-188 | the profile form validates iff every trimmed field meets the registration rules, without any uniqueness check |
| UserSerializers.ProfileFieldErrors | backend/users/serializers.py:167-188 | a rejected profile form reports each failing field with exactly its own messages |
| UserSerializers.ApplyProfile | backend/users/serializers.py:194-199 | username and e-mail are replaced only for a non-OAuth user; names and birthdate are always replaced; every other column is kept |
| UserSerializers.ApplyProfileIdempotent | backend/users/serializers.py:194-199 | applying the same profile update twice is applying it once |
| UserSerializers.UpdateProfile | backend/users/serializers.py:190-203 | without a row for the requester's e-mail the update fails with DoesNotExist |
| UserSerializers.UpdateProfileValid | backend/users/serializers.py:190-203 | a successful update keeps the table valid and changes exactly the requester's row, to the applied update; for an OAuth user it fails exactly when the new birthdate is no real date |
| UserSerializers.SaveProfile | backend/users/serializers.py:190-203 | on the database: the users table becomes the updated one and the saved user is returned, or the update's error is returned and nothing changes |
| UserSerializers.PasswordUpdateRules | backend/users/serializers.py:223-242 | a password change validates iff the new password is strong, the confirmation matches and it is not the current password; the mismatch is reported before "must be different" |
| UserSerializers.SetPassword | backend/users/serializers.py:244-249 | `set_password` stores the hash of the new password and changes no other column |
| UserSerializers.SetPasswordChecks | backend/users/serializers.py:246 | after the change the new password checks and the old one no longer does |
| UserSerializers.SavePassword | backend/users/serializers.py:244-249 | on the database: the row with the new hash is saved, or the save's error is returned and nothing changes |
| Authentication.MatchingFrom | backend/users/authentication.py:10-12 | the query returns, in table order and without repeats, exactly the rows whose username or e-mail is the identifier |
| Authentication.SingleMatch | backend/users/authentication.py:10-12 | when only row `i` matches, the query returns that row alone |
| Authentication.SeveralMatches | backend/users/authentication.py:10-12 | more than one row comes back iff two rows match |
| Authentication.OneMatch | backend/users/authentication.py:10-12 | exactly one row comes back iff one row matches and no other |
| Authentication.AuthenticatedMeaning | backend/users/authentication.py:7-18 | login succeeds iff exactly one row matches by username or e-mail and the password checks against it |
| Authentication.AuthenticatedUser | backend/users/authentication.py:16-17 | a successful login returns a row of the table that the identifier names and whose password checks |
| Authentication.MultipleMatchesMeaning | backend/users/authentication.py:10-12 | `MultipleObjectsReturned` escapes iff two rows match, whatever the password |
| Authentication.MultipleMatchesCrossColumns | backend/users/authentication.py:11 | in a valid table two matches can only be one row's username and another's e-mail |
| Authentication.LoginWithOwnPassword | backend/users/authentication.py:10-17 | a user who logs in with their own username or e-mail and raw password, when no other row matches, is authenticated as themselves |
| Middleware.HeaderMapLookup | backend/chat_app/middlewares.py:28 | `dict(headers)` has a name iff some header carries it, with the value of the last such header |
| Middleware.SplitOnSpace | backend/chat_app/middlewares.py:36 | `split(" ")` gives at least one piece and no piece contains a space |
| Middleware.JoinSplit | backend/chat_app/middlewares.py:36 | joining the pieces with single spaces gives the header back |
| Middleware.SplitJoin | backend/chat_app/middlewares.py:36 | splitting a join of space-free pieces gives the pieces back |
| Middleware.SplitWord | backend/chat_app/middlewares.py:36 | a space-free word ending the string or followed by a space is glued onto the first piece |
| Middleware.SplitAfterWord | backend/chat_app/middlewares.py:36 | word, space, rest splits into the word followed by the pieces of the rest |
| Middleware.TokenFromHeaderMeaning | backend/chat_app/middlewares.py:35-39 | the token is `t` iff the header starts with "Bearer" (case-sensitive, no space required) and reads first word, space, `t`, then the end or a space |
| Middleware.TokenIsSecondPiece | backend/chat_app/middlewares.py:36 | a header with a second piece has the shape first word, space, that piece, rest |
| Middleware.SecondPieceIsToken | backend/chat_app/middlewares.py:36 | a header of that shape has exactly that second piece |
| Middleware.TokenAfterSpace | backend/chat_app/middlewares.py:35-36 | `Bearer abc` gives `abc` |
| Middleware.TokenAfterLongerPrefix | backend/chat_app/middlewares.py:35-36 | `Bearerx y` gives `y`: the prefix check needs no space |
| Middleware.TokenBeforeThirdPiece | backend/chat_app/middlewares.py:36 | `Bearer a b` gives `a` |
| Middleware.EmptyToken | backend/chat_app/middlewares.py:36 | `Bearer ` gives the empty token |
| Middleware.NoTokenExamples | backend/chat_app/middlewares.py:35-39 | bare `Bearer` (IndexError), lower-case `bearer` and another scheme give no token |
| Middleware.NoHeaderNoToken | backend/chat_app/middlewares.py:28-31 | without an `authorization` header there is no token |
| Middleware.TokenFromLastHeader | backend/chat_app/middlewares.py:28-39 | a token comes from the last `authorization` header, and only when its bytes decode (UnicodeDecodeError gives none) |
| Middleware.GetUser | backend/chat_app/middlewares.py:12-25 | a user is resolved iff there is a token, it validates to an id, and a row has that id; the user is that row |
| Middleware.Scope.constructor | backend/chat_app/middlewares.py:27 | a fresh scope carries its headers and no user yet |
| Middleware.Authenticate | backend/chat_app/middlewares.py:27-43 | `scope["user"]` is always written, with the user the header's token resolves to (or None), before the application runs |
| Middleware.NoHeaderNoUser | backend/chat_app/middlewares.py:28-41 | a connection without an `authorization` header gets no user |
| FriendshipModels.StatusName | backend/friendships/models.py:11-19 | every status name fits the column's max_length of 10 |
| FriendshipModels.ParseStatus | backend/friendships/models.py:15-19 | a column value is a status iff it is PENDING, ACCEPTED or REJECTED, and reads back to that name |
| FriendshipModels.StatusRoundTrip | backend/friendships/models.py:11-19 | writing a status and reading it back gives the same status |
| FriendshipModels.ExistsBetween | backend/friendships/models.py:39-42 | the existence query is true iff a row joins the two users in either order |
| FriendshipModels.Clean | backend/friendships/models.py:37-43 | `clean` fails, with "This friendship already exists.", iff the row is new and the pair exists in either order |
| FriendshipModels.Create | backend/friendships/models.py:45-47 | `save` of a new row fails iff the pair exists in either order, otherwise appends the row with the next key |
| FriendshipModels.CreatePreservesValid | backend/friendships/models.py:37-47 | a successful create keeps the table valid under the advanced key, and succeeds in one order iff in the other |
| FriendshipModels.ResaveAlwaysPasses | backend/friendships/models.py:38 | re-saving an existing row never fails `clean` |
| FriendshipModels.UpdatePreservesValid | backend/friendships/models.py:45-47 | an UPDATE keeping key and users (a status change) keeps the table valid |
| FriendshipModels.RemovePreservesValid | backend/friendships/views.py:97 | deleting a row keeps the table valid and removes exactly its key |
| FriendshipModels.WithoutUser | backend/friendships/models.py:21-30 | CASCADE: after deleting a user no remaining row names them, and every remaining row is an old row |
| FriendshipModels.WithoutUserKeeps | backend/friendships/models.py:21-30 | every friendship not naming the deleted user survives |
| FriendshipModels.WithoutUserValid | backend/friendships/models.py:21-30 | the cascade keeps the table valid |
| FriendshipModels.CreateUsersIn | backend/friendships/models.py:21-30 | a created friendship between stored users keeps every row naming stored users |
| FriendshipModels.UpdateUsersIn | backend/friendships/models.py:21-30 | changing a row but not its sides keeps every row naming stored users |
| FriendshipModels.RemoveUsersIn | backend/friendships/models.py:21-30 | deleting a row keeps every row naming stored users |
| FriendshipModels.WithoutUserUsersIn | backend/friendships/models.py:21-30 | after the CASCADE every row names stored users other than `uid` |
| FriendshipPermissions.ParticipantsPermitted | backend/friendships/permissions.py:8 | `user1` and `user2` are both permitted |
| FriendshipPermissions.OthersDenied | backend/friendships/permissions.py:8 | a requester is denied iff they are neither participant |
| FriendshipPermissions.DecisionIgnoresStatus | backend/friendships/permissions.py:5-8 | the decision does not depend on the status or key of the row |
| FriendshipSerializers.GetFriendMeaning | backend/friendships/serializers.py:26-32 | a participant is shown the other participant, whose friend is the viewer again; anyone else is shown `user1` |
| FriendshipSerializers.PendingActionMeaning | backend/friendships/serializers.py:34-43 | there is an action iff the status is PENDING; it is "accept_or_reject" iff the viewer is `user2`, otherwise "waiting_for_response" |
| FriendshipSerializers.PendingActionAfterCreate | backend/friendships/serializers.py:34-43 | for a new request the sender waits and the receiver is asked to answer |
| FriendshipSerializers.FriendUsernameMessagesMeaning | backend/friendships/serializers.py:45-49 | `friend_username` passes iff present, non-blank, at most 30 characters, without NUL and not the requester's own name; self gets "You cannot be friends with yourself." |
| FriendshipSerializers.ValidateRequestAcceptance | backend/friendships/serializers.py:51-68 | a request validates iff the field passes, the name is a user's, no block in either direction and no friendship in either order; the friend is that user, not the requester |
| FriendshipSerializers.ValidateRequestOrder | backend/friendships/serializers.py:51-68 | field errors, then not-found, then the block message, then "Friendship already exists.", each hiding the later ones |
| FriendshipSerializers.BlockRefusesBothWays | backend/friendships/serializers.py:55-61 | a block refuses the request whichever side placed it |
| FriendshipSerializers.CreateAfterValidation | backend/friendships/serializers.py:70-78 | after validation the insert succeeds with the requester as `user1`, the friend as `user2`, status PENDING |
| FriendshipViews.ListedMeaning | backend/friendships/views.py:51-57 | the list holds exactly the keys of the friendships the caller takes part in |
| FriendshipViews.GetMeaning | backend/friendships/views.py:45-57 | with a key: 404 iff no row has it, 403 iff its row excludes the caller, the row iff the caller takes part, which is iff the list holds it |
| FriendshipViews.ValidatedIsStorable | backend/friendships/views.py:64-66 | what the serializer validates may be stored: no friendship yet between the two |
| FriendshipViews.PostMeaning | backend/friendships/views.py:59-73 | a request answers with the row and notifies exactly the friend iff it validated; errors give 400 and not-found 404, with no change and no notification |
| FriendshipViews.ValidatedFriendIsOther | backend/friendships/views.py:68-71 | the notified receiver is never the requester |
| FriendshipViews.PostValid | backend/friendships/views.py:59-73 | a request keeps the friendships table valid |
| FriendshipViews.PostUsersIn | backend/friendships/views.py:59-73 | a request names only the requester and the user the serializer found, both stored |
| FriendshipViews.PatchAcceptMeaning | backend/friendships/views.py:92-95 | accepting succeeds iff the row is a PENDING request addressed to the caller by someone else, and only its status becomes ACCEPTED |
| FriendshipViews.PatchRejectMeaning | backend/friendships/views.py:96-98 | rejecting answers 204 iff the row is a PENDING request addressed to the caller |
| FriendshipViews.PatchRejectRow | backend/friendships/views.py:96-98 | the rejected request is the one row deleted |
| FriendshipViews.PatchRefusals | backend/friendships/views.py:75-101 | every refusal leaves the table unchanged; `user1` gets 403 before the status is looked at; a non-PENDING row gets "already accepted" before the action is read |
| FriendshipViews.PatchValid | backend/friendships/views.py:75-101 | an answer keeps the table valid |
| FriendshipViews.DeleteMeaning | backend/friendships/views.py:103-119 | delete answers 204 iff a participant asks and, for "cancel_pending", the row is PENDING; then exactly that row goes, otherwise nothing changes |
| FriendshipViews.DeleteValid | backend/friendships/views.py:103-119 | a deletion keeps the table valid, and the deleted key then gives 404 |
| FriendshipViews.RequestThenAnswer | backend/friendships/views.py:59-95 | after a request its sender cannot accept it (403) and its receiver can, which makes the row ACCEPTED under the same key |
| FriendshipViews.PostFriendship | backend/friendships/views.py:59-73 | on the database: the table and response are the request's; when a channel layer exists exactly the receiver's room gets one friend-request event |
| FriendshipViews.PatchFriendship | backend/friendships/views.py:75-101 | on the database: the table and response are the answer's |
| FriendshipViews.DeleteFriendship | backend/friendships/views.py:103-119 | on the database: the table and response are the deletion's |
| ChatModels.NewMessage | backend/chats/models.py:9-14 | a new message is unread by its receiver |
| ChatModels.ContentErrors | backend/chats/models.py:12 | the content is refused, with the blank message, iff it is empty; no operation calls it, since `blank=False` is checked only by `full_clean`, which this code never runs |
| ChatModels.NewConversation | backend/chats/models.py:17-37 | a new conversation is visible to both, blocked by neither, and has no last message |
| ChatModels.ExistsBetween | backend/chats/models.py:48-51 | the existence query is true iff a row joins the two sides in either order |
| ChatModels.Clean | backend/chats/models.py:46-52 | `clean` fails, with "This conversation already exists.", iff the row is new and the pair exists in either order |
| ChatModels.Create | backend/chats/models.py:54-56 | `save` of a new conversation fails iff the pair exists in either order, otherwise appends the fresh row with the next key |
| ChatModels.CreatePreservesValid | backend/chats/models.py:46-56 | a successful create keeps every invariant; it succeeds in one order iff in the other |
| ChatModels.UpdatePreservesValid | backend/chats/models.py:47 | re-saving an existing conversation passes `clean`, and an UPDATE keeping key, users and last message keeps every invariant |
| ChatModels.SameKeysValid | backend/chats/models.py:10 | updating flag columns of messages keeps the message table and its foreign keys valid |
| ChatModels.KeepMessages | backend/chats/models.py:10 | after deleting conversations every remaining message is an old one whose conversation survives |
| ChatModels.KeepMessagesKeeps | backend/chats/models.py:10 | every message of a surviving conversation survives |
| ChatModels.KeepMessagesValid | backend/chats/models.py:10 | the surviving messages keep key order and bound |
| ChatModels.ClearDanglingLast | backend/chats/models.py:37 | SET_NULL: exactly the conversations whose last message is gone forget it |
| ChatModels.ClearDanglingLastValid | backend/chats/models.py:37 | clearing keeps the conversation invariant and then every last-message reference resolves |
| ChatModels.ClearDanglingLastKeepsKeys | backend/chats/models.py:37 | clearing references keeps every conversation key |
| ChatModels.RemoveConversationAtValid | backend/chats/models.py:41 | removing a conversation keeps the table valid and every other key |
| ChatModels.DeleteConversationPreservesValid | backend/chats/models.py:10 | deleting a conversation removes it and exactly its messages (CASCADE), clears last messages deleted with it, keeps all other columns, and keeps every invariant |
| ChatModels.RemoveMessageAtKeys | backend/chats/models.py:37 | removing message `k` removes exactly its key |
| ChatModels.DeleteMessagePreservesValid | backend/chats/models.py:37 | deleting the last message nulls `lastMessage` of exactly the conversations pointing at it and keeps every invariant |
| ChatModels.DetachUserPreservesValid | backend/chats/models.py:18-29 | deleting a user keeps every conversation and message, clears only that user's sides and sender references, and keeps every invariant |
| ChatModels.SameKeysUsersIn | backend/chats/models.py:11 | rewriting messages but not their senders keeps every reference resolving |
| ChatModels.UpdateUsersIn | backend/chats/models.py:18-29 | changing a conversation but not its sides keeps every reference resolving |
| ChatModels.CreateUsersIn | backend/chats/models.py:18-29 | a conversation between stored users keeps every reference resolving |
| ChatModels.ClearDanglingLastUsersIn | backend/chats/models.py:37 | clearing last messages keeps every reference resolving |
| ChatModels.KeepMessagesUsersIn | backend/chats/models.py:10-11 | deleting messages keeps every reference resolving |
| ChatModels.DeleteConversationUsersIn | backend/chats/models.py:10 | deleting a conversation with its cascades keeps every reference resolving |
| ChatModels.DeleteMessageUsersIn | backend/chats/models.py:37 | deleting a message keeps every reference resolving |
| ChatModels.DetachUserUsersIn | backend/chats/models.py:11-29 | after SET_NULL for `uid` every side and sender is NULL or a stored user other than `uid` |
| Common.RemoveAt | backend/chats/models.py:10 | deleting the row at index `k` keeps every other row in order |
| ChatPermissions.PermissionMeaning | backend/chats/permissions.py:6-9 | permission is granted exactly to a present participant of a conversation; any other object gives None, which denies |
| ChatPermissions.DetachedSideAdmitsNobody | backend/chats/permissions.py:9 | a conversation whose two sides were set to NULL admits nobody |
| ChatSerializers.GetUserMeaning | backend/chats/serializers.py:39-44 | `user1` is shown `user2`, anyone else `user1`; in a two-person conversation each side sees the other |
| ChatSerializers.BlockFlagsMirror | backend/chats/serializers.py:46-62 | each side's "blocked by me" is its own block flag and the other side's "blocked by other user"; an outsider sees neither |
| ChatSerializers.FreshConversationUnblocked | backend/chats/serializers.py:46-62 | a new conversation shows both flags false to everyone |
| ChatSerializers.User2UsernameMessagesMeaning | backend/chats/serializers.py:13-15 | `user2_username` passes iff present, non-blank, at most 30 characters and without NUL |
| ChatSerializers.ValidateConversationAcceptance | backend/chats/serializers.py:64-79 | a conversation validates iff the field passes, the name is a user's and no conversation joins the two in either order; the other user is that user |
| ChatSerializers.ValidateConversationOrder | backend/chats/serializers.py:64-79 | field errors, then not-found, then "A conversation between these users already exists.", each hiding the later ones |
| ChatSerializers.ExistingRefusedBothWays | backend/chats/serializers.py:70-75 | an existing conversation is refused whichever of the two started it |
| ChatSerializers.SelfConversationAllowed | backend/chats/serializers.py:64-79 | naming oneself validates when one has no conversation with oneself |
| ChatSerializers.CreateAfterValidation | backend/chats/serializers.py:81-88 | after validation the insert succeeds with the requester as `user1` and the named user as `user2` |
| ChatViews.MarkReadMeaning | backend/chats/views.py:15-19 | exactly the conversation's messages not sent by the receiver become read; nothing else changes; marking twice is marking once |
| ChatViews.HideForMeaning | backend/chats/views.py:22-28 | every message of the conversation loses the chosen side's flag, the other side's flag and all other messages are untouched |
| ChatViews.ListedMeaning | backend/chats/views.py:34-44 | the list holds exactly the conversations in which the caller is on a side whose visibility flag is set |
| ChatViews.FirstExisting | backend/chats/views.py:53-56 | `.first()` gives the first row, in key order, joining the caller and the named user, or none iff there is no such row |
| ChatViews.ValidatedIsStorable | backend/chats/views.py:74-78 | what the serializer validates may be stored |
| ChatViews.PostReopens | backend/chats/views.py:53-72 | for an existing conversation post answers 200 with its key, makes it visible to the caller and changes nothing else |
| ChatViews.PostCreates | backend/chats/views.py:74-81 | otherwise a validated request creates the fresh row (201, visible to both); errors give 400 and not-found 404, changing nothing |
| ChatViews.ExistingEitherOrder | backend/chats/views.py:53-56 | the other user is found by username whichever side the caller is on |
| ChatViews.ExistingUnique | backend/chats/views.py:53-56 | in valid tables a name picks at most one of the caller's conversations |
| ChatViews.OnlyExisting | backend/chats/views.py:53-56 | the caller's conversation with that name is the first match |
| ChatViews.PostValid | backend/chats/views.py:46-81 | post keeps the conversation table valid with the messages |
| ChatViews.PostUsersIn | backend/chats/views.py:46-81 | a post names only the requester and the user the serializer found, both stored |
| ChatViews.PatchHidesOneSide | backend/chats/views.py:83-97 | hiding clears the caller's flag on the conversation and on its messages, keeps the other side's, and changes no other row |
| ChatViews.OutsiderHidesSecondSide | backend/chats/views.py:83-93 | without a permission check an outsider hides the conversation for `user2` |
| ChatViews.PatchValid | backend/chats/views.py:83-97 | patch keeps the chat tables valid |
| ChatViews.PatchKeepsRows | backend/chats/views.py:83-97 | hiding keeps the row's key, its users and the table's validity |
| ChatViews.HideThenReopen | backend/chats/views.py:46-97 | after hiding, posting the other user's name reopens the same conversation without a new row, and it is listed again |
| ChatViews.MarkMessagesAsRead | backend/chats/views.py:15-19 | on the database: the messages become the marked table, nothing else changes |
| ChatViews.HideMessagesForUser | backend/chats/views.py:22-28 | on the database: the side is `user1` iff the user is the conversation's `user1`; nothing else changes |
| ChatViews.PostConversation | backend/chats/views.py:46-81 | on the database: the conversations and response are the post's |
| ChatViews.HideConversation | backend/chats/views.py:83-97 | on the database: the conversations, messages and response are the patch's |
| CleanupConversations.VisibleMeaning | backend/chats/management/commands/cleanup_conversations.py:14-16 | a conversation survives iff it is a row seen by at least one side |
| CleanupConversations.InvisibleKeysMeaning | backend/chats/management/commands/cleanup_conversations.py:14-20 | a key is deleted iff it belongs to a row seen by neither side |
| CleanupConversations.CountIsRemoved | backend/chats/management/commands/cleanup_conversations.py:18 | the logged count is the number of rows removed |
| CleanupConversations.VisibleValid | backend/chats/management/commands/cleanup_conversations.py:20 | the surviving rows keep the table valid |
| CleanupConversations.KeptMessagesBelong | backend/chats/management/commands/cleanup_conversations.py:20 | every surviving message belongs to a surviving conversation |
| CleanupConversations.CleanupValid | backend/chats/management/commands/cleanup_conversations.py:14-20 | the command keeps every table constraint |
| CleanupConversations.CleanupUsersIn | backend/chats/management/commands/cleanup_conversations.py:14-20 | the command leaves every user reference resolving |
| CleanupConversations.CleanupMeaning | backend/chats/management/commands/cleanup_conversations.py:14-22 | no survivor is hidden from both; every seen row survives (up to a cleared last message); a message survives iff its conversation does; the count is the rows removed |
| CleanupConversations.NothingInvisible | backend/chats/management/commands/cleanup_conversations.py:14-16 | a table with every row seen by someone is left as it is, with count 0 |
| CleanupConversations.CleanupIdempotent | backend/chats/management/commands/cleanup_conversations.py:14-20 | running the command again removes nothing and logs 0 |
| CleanupConversations.Handle | backend/chats/management/commands/cleanup_conversations.py:11-22 | on the database: one loop selects and counts the invisible rows, then the tables and count are those of the cleanup |
| Consumers.RoomNameInjective | backend/notifications/consumers.py:20 | two users share a room name iff they are the same user |
| Consumers.HandlerNameMeaning | backend/notifications/consumers.py:102 | the handler of an event type is that type with every `.` turned into `_` |
| Consumers.BothSpellingsReachChatMessage | backend/notifications/consumers.py:102 | both `chat.message` and `chat_message` reach the `chat_message` handler |
| Consumers.Deliver | backend/notifications/consumers.py:116-124 | one `group_send` appends the event to the queue of each room member and of no other channel |
| Consumers.ChannelLayer.constructor | backend/notifications/consumers.py:110 | a new layer has no rooms and no queued events |
| Consumers.ChannelLayer.GroupAdd | backend/notifications/consumers.py:23 | the channel joins the room; queues untouched |
| Consumers.ChannelLayer.GroupDiscard | backend/notifications/consumers.py:31-33 | the channel leaves that room only, and a room left empty disappears |
| Consumers.ChannelLayer.GroupSend | backend/notifications/consumers.py:99-105 | the event goes to the room's members; rooms untouched |
| Consumers.FriendNotificationsCount | backend/notifications/consumers.py:49-75 | one notification per ACCEPTED friendship of the user |
| Consumers.FriendNotificationsSound | backend/notifications/consumers.py:51-75 | every notification comes from an ACCEPTED friendship of the user, addressed to the other side's room, with the status copied verbatim |
| Consumers.FriendNotificationsComplete | backend/notifications/consumers.py:51-75 | every ACCEPTED friendship of the user yields its notification |
| Consumers.OneNotificationPerFriend | backend/notifications/consumers.py:58-63 | in a valid table no room is notified twice |
| Consumers.DeliverAllQueue | backend/notifications/consumers.py:98-105 | after the fan-out each channel has, behind its old queue, exactly the events addressed to its rooms, in send order |
| Consumers.SendNotifications | backend/notifications/consumers.py:98-105 | the loop leaves the queues of one `group_send` per notification, in list order |
| Consumers.SendChatMessage | backend/notifications/consumers.py:107-124 | with a layer the receiver's room gets `{"data": message_data}`; without one nothing happens |
| Consumers.SendFriendRequest | backend/notifications/consumers.py:130-142 | with a layer the receiver's room gets `{"type": "friend_request"}`; without one nothing happens |
| Consumers.Consumer.constructor | backend/notifications/consumers.py:11 | a fresh connection has no user, room, acceptance, close code or sent frames |
| Consumers.Consumer.Connect | backend/notifications/consumers.py:13-25 | without a user it closes with 4001 and touches no room; with a user it joins `chat_<id>` and accepts |
| Consumers.Consumer.Disconnect | backend/notifications/consumers.py:27-34 | the channel leaves its room only if it was given one |
| Consumers.Consumer.ChatMessage | backend/notifications/consumers.py:39-42 | the event's message is sent to the client unchanged |
| Consumers.Consumer.DeliverNext | backend/notifications/consumers.py:39-42 | the first queued event is taken off and sent if its handler is `chat_message` |
| Consumers.Consumer.GetFriendNotifications | backend/notifications/consumers.py:48-75 | the loop builds exactly the specified notification list |
| Consumers.Consumer.SaveUserStatus | backend/notifications/consumers.py:77-80 | `IsOnline` becomes true iff the status is "Online", and the whole copy of the row is saved |
| Consumers.Consumer.Receive | backend/notifications/consumers.py:82-105 | without a `status` nothing changes; otherwise the status is saved first and, if the save succeeds, the notifications are sent in list order |
| Consumers.StatusSaveWritesWholeCopy | backend/notifications/consumers.py:78-80 | the saved row is the consumer's copy with the new flag; other rows are untouched |
| Store.DeleteUserValid | backend/users/models.py:38-41 | deleting a user with all its CASCADE and SET_NULL effects keeps every constraint, including that every user reference still resolves |
| Store.DeleteConversationValid | backend/chats/models.py:10 | deleting a conversation with its cascades keeps every constraint |
| Store.DeleteMessageValid | backend/chats/models.py:37 | deleting a message with SET_NULL on last messages keeps every constraint |
| Store.ReplaceUsersValid | backend/users/models.py:8-12 | a valid users table with keys below its counter, keeping every old key, can replace the old one |
| Store.ReplaceFriendshipsValid | backend/friendships/models.py:21-30 | a valid friendships table between stored users can replace the old one |
| Store.ReplaceChatsValid | backend/chats/models.py:9-41 | valid chat tables with resolving references can replace the old ones |
| Store.Database.SaveUser | backend/users/models.py:8-9 | `user.save()` writes the row as `SaveRow` says, or nothing on refusal |
| Store.Database.ReplaceUsers | backend/users/models.py:8-12 | writing a valid users table that keeps every key changes that table alone |
| Store.Database.ReplaceFriendships | backend/friendships/models.py:45-47 | writing a valid friendships table changes that table alone |
| Store.Database.ReplaceChats | backend/chats/models.py:54-56 | writing valid chat tables changes those tables alone |
| Store.Database.DeleteConversation | backend/chats/models.py:10 | a conversation is deleted iff its key exists, with the cascade on its messages |
| Store.Database.DeleteMessage | backend/chats/models.py:37 | a message is deleted iff its key exists; conversations pointing at it lose `lastMessage` |
| Store.Database.DeleteUser | backend/users/models.py:38-41 | deleting a user removes their row, blacklist entries and friendships, and nulls their sides and sender references |
| Store.Database.RemoveUserRow | backend/users/models.py:38-41 | once nothing else names `uid`, its row and its blacklist entries are deleted and nothing else changes |

## Left out

- Channels, ASGI, `async`/`await` and the concurrency of the real channel layer are left out. The layer is one sequential map, and each `await` is one step in order.
- JWT decoding is the parameter `tokenUserId`, UTF-8 decoding the parameter `decode`, and Django's e-mail validator the predicate `isEmail`; none is modelled. Password hashing is the parameter `hasher` and `check_password` is the parameter `checkPassword`; lemmas that need them to agree say so in their `requires`.
- `json.loads` is left out. `Consumers.Consumer.Receive` takes the already-parsed payload, with None for text that does not parse; it is refused, like a payload without `status`.
- Pictures and storage are left out: `ImageField`, `validate_image_size` (not shown) and `UpdatePictureSerializer`. A picture is an optional path string that registration copies through.
- `LoginSerializer` is left out; it only wraps `authenticate`, which is modelled.
- Clock columns (`created_at`, `lastMessageTimestamp`), logging and printing are left out; the "Channel layer is not available" print is a no-op.
- Whitespace and digits are ASCII only. Python's `\s` and `\d` also accept other Unicode characters, and `strip()` removes Unicode whitespace.
- A `user2_username` or `friend_username` that is not a string is not modelled; every request value is an optional string.
- Response bodies are reduced to the ids of the serialized rows.
- `ConversationsView.get` is the function `ChatViews.Listed`, with no database method of its own; it changes nothing.
- `UserModels.SaveRow`: saving a user whose row no longer exists is a failure here, whereas Django's `save()` would INSERT it again under the same key.
- `UserModels.InsertRow` and `UserModels.SaveRow`: a birthdate not written `YYYY-MM-DD` is refused with the date-format message, whereas Django's `parse_date` also reads a few other ISO 8601 forms. A validated birthdate always has that form, so no operation here reaches the difference.
- `ChatViews.PostConversation` and `FriendshipViews.PostFriendship` require the requester to be a stored row: the authenticated `request.user` is loaded from the users table.
- `UserModels.InsertRow`: a failed INSERT does not consume a primary key here; a real sequence may skip one.
- `Consumers.Consumer.SaveUserStatus`: the consumer's copy of the user row, taken at connect time, may be stale. Saving it writes every column back; this is modelled, not prevented.
- `Consumers.Consumer.Connect`: the real `close` also ends the handshake. The model only records the close code.
- `Store.Database.DeleteMessage`: states the new messages table by its length and the absence of the deleted key, not as the exact sequence. `ChatModels.RemoveMessageAtKeys` and `ChatModels.DeleteMessagePreservesValid` state the rest on values.
