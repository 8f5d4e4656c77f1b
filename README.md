# coms-server core, modelled in Dafny

This project models the request-handling rules of the Cohort Management
System's server: the input validators, log-in, registration and profile
updates, the administrator's user edits, the community feed (posts, comments,
replies, upvotes), the day-pass lifecycle, the workspace update and the
"my workspace" / "my community" lookups, and the authentication middleware.

Each state-changing handler is an imperative method of its controller module.
It takes the store object whose field is the MongoDB collection
(`UserStore.users`, `PostStore.posts`, `PassStore.passes`,
`WorkspaceStore.docs`) and edits the loaded record step by step, as the
controller does. Its contract says that its response and
the new collection equal an `...Outcome` function of the collection before the
request, and that the store's invariant holds again afterwards. The invariant
is the schema's required fields, enums and unique indexes. The behaviour the
handler promises is proved about the `...Outcome` function: error cases and
their messages, what changes and what stays, idempotence, and round trips.
The pure parts (validators, role gates, pass codes, the community query) are
functions with lemmas.

Modules:

- `Js` (js.dfy) covers the JavaScript semantics the handlers rely on: a dynamic
  `Value`, truthiness, `\s`, `trim`, UTF-16 `length`, `toUpperCase` /
  `toLowerCase`, `substring`, `startsWith`, `indexOf`, `split(' ')`, and `||`.
- `Http` (http.dfy) is the response: a status and a message.
- `Validation` proves each regular expression equal to a literal reading of it.
- `UserModel`, `AuthController`, `UserController`, `AuthMiddleware`,
  `PostModel`, `PostController`, `DayPass` and `WorkspaceController` cover the
  other files.

Bcrypt, JWT, the uuid generator, the clock, date parsing and the date label are
parameters of the handlers. So is whether the day-pass e-mail was delivered.

Where the code and its written description differ, the model follows the code:

- `requestDayPass` sends the pass e-mail without a local `try`. A failed
  delivery therefore answers 500, although the pass is already stored. It is
  not a best-effort notification.
- `createUser` supplies no password, which the schema requires, and defaults
  the role to `'User'`, which is outside the role enum. It can never create a
  user and always answers 400.
- `authorize` without an attached user first sets status 403 and then reads
  `req.user.role` while building its message. That throws a `TypeError`. The
  application's error handler keeps any status other than 200, so the answer is
  403 with the `TypeError`'s message.

## Model

| member | source | states |
|---|---|---|
| Validation.ValidEmailIffPattern | src/utils/validation.ts:9-12 | the e-mail check accepts exactly `local@domain`: a non-empty local part without white space or `@`, and a domain without them that holds a `.` with text on both sides |
| Validation.EmailRejections | src/utils/validation.ts:10 | any string with a white-space character, or without exactly one `@`, is rejected |
| Validation.ValidPasswordLength | src/utils/validation.ts:17-19 | at least six characters always passes and at most two never does; for BMP text it is exactly "length at least 6" (the length counts UTF-16 code units) |
| Validation.ValidMobileIffPattern | src/utils/validation.ts:24-28 | the mobile check accepts exactly an optional `+` followed by ten or more digits, white-space characters or `-` |
| Validation.PresentString | src/utils/validation.ts:35 | a string field counts as present exactly when it holds a non-white-space character |
| Validation.Capitalize | src/utils/validation.ts:36 | the first character is upper-cased, the rest are kept, and the length is kept |
| Validation.CheckRequiredFields | src/utils/validation.ts:33-40 | none iff every listed field is present (non-strings such as 0 or false count); otherwise the message names a missing field with every earlier field present |
| Validation.FirstMissingWins | src/utils/validation.ts:34-37 | the first missing field in list order decides the message, whatever follows |
| Js.TrimEmptyIffBlank | src/utils/validation.ts:35 | `trim()` gives the empty string exactly for all-white-space strings |
| Js.Utf16LengthBounds | src/utils/validation.ts:18 | a string's UTF-16 length lies between its code-point count and twice that; the two are equal for BMP text |
| Js.IndexOf | src/controllers/postController.ts:50 | -1 iff the element is absent; otherwise the position of its first occurrence |
| Js.JoinSplit | src/middleware/authMiddleware.ts:13 | joining the fields of `split(' ')` with spaces gives back the header |
| Js.SplitJoin | src/middleware/authMiddleware.ts:13 | splitting space-joined, space-free fields gives back the same fields |
| Js.SplitFieldsHaveNoSpace | src/middleware/authMiddleware.ts:13 | every field of `split(' ')` is free of spaces |
| Js.ToUpper | src/controllers/dayPassController.ts:16 | the length is kept, and each character maps to its ASCII upper case |
| Js.Prefix | src/controllers/dayPassController.ts:16 | `substring(0, n)` is the first `min(n, length)` characters |
| UserModel.ParseRole | src/models/User.ts:41-45 | only the four enum names cast to a role, each to the role it names |
| UserModel.ParseStatus | src/models/User.ts:46-50 | only the three enum names cast to a status, each to the status it names |
| UserModel.SaveKeepsValid | src/models/User.ts:19-63 | saving a schema-valid user that clashes with no other user's `_id`, e-mail or mobile (an explicit `null` mobile counts, a missing one does not) keeps the collection valid |
| UserModel.InsertKeepsValid | src/models/User.ts:19-63 | inserting such a user keeps the collection valid |
| UserModel.RemoveKeepsValid | src/models/User.ts:19-63 | removing a user keeps the collection valid |
| UserModel.FindByEmail | src/controllers/authController.ts:22 | a user with that e-mail; none iff no user has it |
| UserModel.FindById | src/controllers/authController.ts:176 | the user with that id; none iff no user has it |
| AuthController.LoginOutcome | src/controllers/authController.ts:10-51 | 400 for a missing field or a malformed e-mail, before any lookup; the same 401 for an unknown e-mail and a wrong password; 403 for an Inactive user, who stays Inactive; otherwise 200, with Pending promoted to Active; log-in never makes a user Inactive |
| AuthController.LoginTwiceIsOnce | src/controllers/authController.ts:30-34 | repeating a successful log-in gives the same state and answer |
| AuthController.AuthUser | src/controllers/authController.ts:10-51 | the handler's response and new collection are `LoginOutcome` of the old collection; the unique indexes still hold |
| AuthController.RegisteredRole | src/controllers/authController.ts:83 | a falsy role becomes Member; a truthy role must name an enum value |
| AuthController.NewUser | src/controllers/authController.ts:79-86 | a user is built iff name, e-mail and password are strings, the role is falsy or a known role name, and mobile and organization are strings, `null` or absent; it carries those values (an absent one is left out of the document, `null` is stored) and is Pending, joined today and last active "Just now" |
| AuthController.RegisterOutcome | src/controllers/authController.ts:56-146 | checks in this order: required fields, e-mail format, password length, e-mail uniqueness; 201 iff all pass, the schema accepts and no unique index clashes (an explicit `null` mobile is indexed); then exactly the new user is appended; otherwise nothing is written; the collection stays valid |
| AuthController.RegisterUser | src/controllers/authController.ts:56-146 | the handler equals `RegisterOutcome` and keeps the store valid |
| AuthController.SecondNullMobileRefused | src/models/User.ts:29-33 | once a user holds an explicit `null` mobile, no registration sending `mobile: null` answers 201 or writes anything, and one that passes every check answers 500 |
| AuthController.ProfileMerge | src/controllers/authController.ts:179-182 | each of name, e-mail, mobile and organization takes a non-empty supplied value and otherwise keeps the stored one |
| AuthController.ProfileMergeProperties | src/controllers/authController.ts:179-182 | the falsy-keeps-old merge is idempotent, an empty body changes nothing, and only name, e-mail, mobile and organization can change |
| AuthController.PasswordChange | src/controllers/authController.ts:184-198 | proceeds iff no new password is supplied, or a non-empty, matching old password and a new password of at least six characters are; each refusal carries its own message |
| AuthController.ProfileUpdateOutcome | src/controllers/authController.ts:174-221 | 404 without an existing caller; each password refusal and a supplied malformed e-mail answer 400 and save nothing; a clash with a unique index answers 500; 200 iff the caller exists, the password step proceeds, the e-mail is absent or well formed and nothing clashes, and then the caller's record is exactly the merge with the new password |
| AuthController.UpdateUserProfile | src/controllers/authController.ts:174-221 | the step-by-step handler equals `ProfileUpdateOutcome` and keeps the store valid |
| UserController.CreateUser | src/controllers/userController.ts:19-38 | always 400; "User already exists" exactly when the e-mail lookup finds a user (with no e-mail, any user matches) |
| UserController.MergeUser | src/controllers/userController.ts:47-52 | each of the six fields is replaced only by a non-empty supplied value; id, password and dates are untouched; a role or status outside its enum is refused; schema validity is kept |
| UserController.MergeUserIdempotent | src/controllers/userController.ts:47-52 | applying the same body twice equals applying it once |
| UserController.EmptyUpdateKeepsUser | src/controllers/userController.ts:47-52 | an empty body leaves the user unchanged |
| UserController.UpdateOutcome | src/controllers/userController.ts:43-72 | 404 for an unknown id; 400 with no change for an enum or unique-index failure; otherwise exactly the addressed user is replaced by its merge |
| UserController.UpdateUser | src/controllers/userController.ts:43-72 | the handler equals `UpdateOutcome` and keeps the store valid |
| UserController.DeleteOutcome | src/controllers/userController.ts:77-89 | 404 for an unknown id with no change; otherwise exactly that user is removed, no user with the id remains, and the collection stays valid |
| UserController.DeleteUser | src/controllers/userController.ts:77-89 | the handler equals `DeleteOutcome` and keeps the store valid |
| AuthMiddleware.BearerToken | src/middleware/authMiddleware.ts:13 | the token is the second space-separated field of the header, if there is one, and it holds no space |
| AuthMiddleware.Protect | src/middleware/authMiddleware.ts:5-31 | a header not starting with "Bearer" gets 401 "no token"; the request proceeds iff the second field is a non-empty token that verifies, and then carries the user the token names; every other case gets 401 "token failed" |
| AuthMiddleware.BearerHeaderCarriesToken | src/middleware/authMiddleware.ts:7-13 | a header built as "Bearer " plus a space-free token yields exactly that token |
| AuthMiddleware.Admin | src/middleware/authMiddleware.ts:33-39 | passes iff an Admin user is attached; otherwise 403 "Not authorized as an admin" |
| AuthMiddleware.Authorize | src/middleware/authMiddleware.ts:41-49 | passes iff a user is attached whose role is listed; every refusal is 403, naming the role, or carrying the `TypeError` message when there is no user |
| AuthMiddleware.AuthorizeAdminIsAdmin | src/middleware/authMiddleware.ts:33-49 | `authorize('Admin')` admits exactly what `admin` admits |
| AuthMiddleware.AuthorizeMonotone | src/middleware/authMiddleware.ts:41-49 | listing more roles never refuses a request that fewer roles admitted |
| PostModel.FindPost | src/controllers/postController.ts:46 | the post with that id; none iff no post has it |
| PostModel.FindComment | src/controllers/postController.ts:138 | the first comment with that id; none iff no comment has it |
| PostModel.Toggle | src/controllers/postController.ts:50-55 | an absent user id is appended at the end; otherwise its first occurrence, and only that, is removed (as a multiset, exactly one copy more or fewer) |
| PostModel.ToggleTwiceRestores | src/controllers/postController.ts:50-55 | toggling twice from a list without the user restores the list exactly |
| PostModel.ToggleFlips | src/controllers/postController.ts:144-149 | on a list without duplicates, a toggle flips whether the user has voted, keeps the list duplicate-free and changes its length by one |
| PostModel.WithoutComment | src/controllers/postController.ts:186 | the kept comments are exactly those whose id differs; with no match the list is unchanged |
| PostModel.WithoutCommentAppend | src/controllers/postController.ts:186 | the filter works element by element, so the kept comments stay in their original order |
| PostModel.ReplacePostKeepsValid | src/models/Post.ts:31-97 | replacing a post by a valid one with the same id keeps the collection valid |
| PostModel.RemovePostKeepsValid | src/controllers/postController.ts:121 | removing a post keeps the collection valid and leaves no post with its id |
| PostModel.ReplaceCommentKeepsValid | src/models/Post.ts:49-94 | replacing a comment by a valid one keeps the comment list valid |
| PostController.CreatePostOutcome | src/controllers/postController.ts:19-39 | 400 "Content is required" for empty content; 201 iff content, an attached author, an author name and a fresh id are all present, and then exactly the new post, with no votes or comments, is appended; otherwise 400 and no change |
| PostController.CreatePost | src/controllers/postController.ts:19-39 | the handler equals `CreatePostOutcome` and keeps the store valid |
| PostController.UpvotePostOutcome | src/controllers/postController.ts:44-65 | 404 with no change iff the post is missing; otherwise only that post's upvotes are toggled, which flips the caller's vote |
| PostController.UpvotePostTwiceRestores | src/controllers/postController.ts:50-55 | two upvotes by a user who had not voted restore the collection exactly |
| PostController.UpvotePost | src/controllers/postController.ts:44-65 | the handler equals `UpvotePostOutcome` and keeps the store valid |
| PostController.AddCommentOutcome | src/controllers/postController.ts:70-99 | 400 for empty text before the lookup; 404 for a missing post; 201 iff the text is non-empty, the post exists and a caller with a name is attached, and then the collection is the old one with exactly that post's comment list extended by one entry at the end, carrying the caller, name and text |
| PostController.AddComment | src/controllers/postController.ts:70-99 | the handler equals `AddCommentOutcome` and keeps the store valid |
| PostController.DeletePostOutcome | src/controllers/postController.ts:104-126 | 404 for a missing post; the post is removed iff the caller is its author or an Admin; otherwise 401 and nothing removed; afterwards no post with that id remains |
| PostController.DeletePost | src/controllers/postController.ts:104-126 | the handler equals `DeletePostOutcome` and keeps the store valid |
| PostController.UpvoteCommentOutcome | src/controllers/postController.ts:131-159 | 404 for a missing post or comment, with no change; otherwise only the first matching comment's upvotes are toggled |
| PostController.UpvoteComment | src/controllers/postController.ts:131-159 | the handler equals `UpvoteCommentOutcome` and keeps the store valid |
| PostController.DeleteCommentOutcome | src/controllers/postController.ts:164-195 | 404 for a missing post or comment; comments are removed iff the caller wrote the first match or is an Admin; then the post keeps exactly its comments with a different id; otherwise 401 and no change |
| PostController.DeleteComment | src/controllers/postController.ts:164-195 | the handler equals `DeleteCommentOutcome` and keeps the store valid |
| PostController.AddReplyOutcome | src/controllers/postController.ts:200-236 | 400 for empty text; 404 for a missing post or comment; on 201 exactly one reply is appended to the matched comment, and the other comments, the post's upvotes and other posts are unchanged |
| PostController.AddReply | src/controllers/postController.ts:200-236 | the handler equals `AddReplyOutcome` and keeps the store valid |
| DayPass.PassCode | src/controllers/dayPassController.ts:16 | "COHORT-" followed by the upper-cased first eight uuid characters: 15 characters, with no lower-case letter after the prefix |
| DayPass.PassCodeDependsOnPrefix | src/controllers/dayPassController.ts:16 | uuids that agree on their first eight characters up to case give the same code |
| DayPass.FindPass | src/controllers/dayPassController.ts:185 | the pass with that code; none iff no pass has it |
| DayPass.AppendPassKeepsValid | src/models/DayPass.ts:3-36 | a pass with its required fields filled and an unused code keeps the collection valid |
| DayPass.RequestOutcome | src/controllers/dayPassController.ts:8-166 | 400 for any empty field, with nothing created; a date that does not parse, or a code already taken, answers 500 and stores nothing; a pass is stored iff the date parses and the code is fresh, and it is Pending with the new code; 201 exactly when a pass was stored and delivered, else 500 with the pass kept |
| DayPass.RequestDayPass | src/controllers/dayPassController.ts:8-166 | the handler equals `RequestOutcome` and keeps the store valid |
| DayPass.VerifyOutcome | src/controllers/dayPassController.ts:177-234 | 400 for a missing code and 404 for an unknown one; Used or Expired passes are refused unchanged; 200 iff the pass is Pending and its visit day is today, and then only its status becomes Used; a wrong day is refused with the day named |
| DayPass.VerifyDayPass | src/controllers/dayPassController.ts:177-234 | the handler equals `VerifyOutcome` and keeps the store valid |
| DayPass.SecondVerificationRefused | src/controllers/dayPassController.ts:191-196 | after a successful verification, verifying the same code again, on any day, is refused as already used and changes nothing |
| DayPass.VerifyIgnoresTimeOfDay | src/controllers/dayPassController.ts:205-212 | the visit date's time of day has no effect on the answer |
| WorkspaceController.FindWorkspace | src/controllers/workspaceController.ts:58 | the workspace with that id; none iff no workspace has it |
| WorkspaceController.PatchProperties | src/controllers/workspaceController.ts:62-66 | every body key except `_id` and `id` takes the body's value; all other keys keep theirs; `_id` and `id` never change; patching twice is patching once |
| WorkspaceController.CopyKeys | src/controllers/workspaceController.ts:62-66 | the loop over the body's keys, in any order, computes `Patch` |
| WorkspaceController.CastObjectId | src/models/Workspace.ts:66-70 | the cast succeeds iff the value is unset, `null`, an ObjectId or a 24-digit hexadecimal string; the string becomes the ObjectId of its lower-cased text, the other values are kept |
| WorkspaceController.Save | src/models/Workspace.ts:20-73 | the save succeeds iff `allottedTo`, when present, casts and every required path holds a value; the saved document passes the schema, has the same keys, and differs at most in `allottedTo`, which holds the cast value |
| WorkspaceController.UpdateOutcome | src/controllers/workspaceController.ts:55-77 | 404 with no change iff the id is unknown; 400 with no change when the save fails; otherwise exactly that document becomes the saved patch; the collection stays valid |
| WorkspaceController.UpdateTwiceIsOnce | src/controllers/workspaceController.ts:55-77 | repeating a successful update gives the same collection and answer |
| WorkspaceController.PatchOverSaved | src/controllers/workspaceController.ts:62-68 | re-patching the saved document with the same body gives the same patch |
| WorkspaceController.UpdateWorkspace | src/controllers/workspaceController.ts:55-77 | the handler equals `UpdateOutcome` and keeps the store valid |
| WorkspaceController.FindAllotted | src/controllers/workspaceController.ts:105 | a workspace allotted to the user; none iff there is none |
| WorkspaceController.MyWorkspace | src/controllers/workspaceController.ts:98-116 | 401 without a user; 200 iff some workspace is allotted to the caller, returning such a workspace; otherwise 404 |
| WorkspaceController.Community | src/controllers/workspaceController.ts:137-140 | exactly the workspaces at the location whose `allottedTo` is neither null nor the caller |
| WorkspaceController.CommunityAppend | src/controllers/workspaceController.ts:137-140 | the query keeps collection order |
| WorkspaceController.CommunityMembers | src/controllers/workspaceController.ts:121-151 | 401 without a user, 404 without an allotted workspace; otherwise one entry per community workspace, pairing its name with its occupant, and the caller never appears |

## Left out

- Persistence is a sequence per collection. Cast errors of `findById` on malformed ids are not modelled: ids compare by equality. `populate`, `sort`, `select('-password')` and newest-first ordering are not modelled.
- Response bodies are reduced to status and message. JSON shapes, returned documents and tokens are not modelled, and a 200 carries an empty message where the source returns a document.
- The message of a thrown Mongoose error is written as a fixed short text ("User validation failed", "E11000 duplicate key error", "Post validation failed", "Workspace validation failed", a cast message) rather than the library's full text. A failed day-pass delivery answers with the e-mail transport's own error message when it has one; the model always uses the handler's fallback "Error generating day pass".
- Body fields are strings, with "" standing for absent, `null`, `false` or empty. The exceptions are `registerUser` and `updateWorkspace`, which take a map of dynamic values. A non-string truthy value elsewhere (a number, an array) is not modelled.
- Mongoose casts other than `allottedTo` are not modelled. A number, boolean or ObjectId written to a required string path of a workspace counts as present and is stored uncast. Strict-mode dropping of unknown workspace keys is not modelled. A 12-character ObjectId string is not accepted.
- `timestamps`, `createdAt`, comment and reply `_id` generation, and the `resetPassword` fields are not modelled. New ids are parameters.
- Bcrypt hashing and comparison, JWT signing and verification, uuid generation, the clock, date parsing and locale date formatting are parameters. The password is kept as the secret last set.
- The QR code, the PDF and the e-mails are not modelled. The day pass's delivery outcome is the boolean `delivered`. The registration welcome e-mail is caught and ignored by the source, so it has no effect on the model.
- The upvote handlers take the caller's id as a string. The case of no attached user, where the source pushes `undefined`, is not modelled; the route always runs `protect`.
- NewUser: the registration body's name, mobile and organization must be strings (mobile and organization may also be `null` or absent). A number or boolean there is refused (500 "User validation failed"), where Mongoose's String cast would store its text and answer 201. That cast is not modelled.
- `ToUpper`, `ToLower` and `Capitalize` map only ASCII letters. Non-ASCII case mapping is not modelled.
- `checkRequiredFields` reads own keys of a map. Inherited properties of the body object are not modelled.
- The read-only handlers `getPosts`, `getUsers`, `getWorkspaces`, `getWorkspaceById`, `getAllDayPasses` and `getUserProfile` are left out. So are `createWorkspace` and `deleteWorkspace`. They are single store calls with no rule of their own.
- The booking, quote, contact and invoice handlers, the upload middleware, the seeder and the Express wiring are not part of this model.
- `protect` does not model a failing `findById` after a valid token.
