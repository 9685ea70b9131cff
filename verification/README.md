# Chat application backend: conversations, auth gate, registration

A Dafny model of the server side of a direct-and-group messaging
application. It covers the conversation controllers, the bearer-token gate in
front of them, and user registration and login with the User schema.

The document store is modelled as immutable sequences of records in insertion
order, so "the first match" has a meaning. There is one sequence of `Chat`
records and one of `User` records. Each controller is a pure function from the
store, the caller (where the controller reads it) and the request body fields
to the next store and a `Response`. A `Response` is `Ok(status, body)` or
`Error(status, message)`.

Body fields are `Option<string>`. JavaScript's `!field` test holds for an
absent field and for the empty string; this is `Http.Truthy`. Object ids are
opaque strings. A newly created document gets an id that no other document in
its collection has (`Mongo.FreshId`).

Modules, one per file:

- `Wrappers` holds `Option`.
- `Http` holds status codes, `Truthy` and `Response`.
- `Mongo` holds fresh ids, first-match lookup (`FindFirst`), and the `$push` (`Push`) and `$pull` (`Pull`) array updates.
- `ChatModel` holds the chat record, the lookup by id, the one-on-one query and the store invariants.
- `ChatControllers` holds `accessChat`, `createGroupChat`, `renameGroup`, `addToGroup` and `removeFromGroup`.
- `ChatLaws` holds properties that relate several controller calls.
- `UserModel` holds the User record with its schema rules and lookups.
- `UserControllers` holds `registerUser` and `authUser`.
- `AuthMiddleware` holds `protect`, with the header's `split(' ')` and the prefix test.

The model follows the code as written. Behaviours worth knowing:

- Members are an array, not a set. `addToGroup` appends the user even when they are already a member, so it is not idempotent. `removeFromGroup` removes every occurrence.
- Neither mutation checks `isGroupChat`, the caller or the admin. The rename and membership controllers take no caller at all, because the code never reads it. Removing the admin leaves a group whose admin is not a member (`ChatLaws.RemovingAdminBreaksGroup`).
- The one-on-one query tests containment, not equality of the member set. When the other user is the caller, any direct chat that contains the caller matches.
- `protect` does not reject a valid token whose subject has no user. It calls `next` with no user bound.
- `protect` refuses an empty token, as in the headers "Bearer " and "Bearer  tok", with "token failed". The token library rejects an empty token before any signature check.
- The group-size message says "more than 2", but exactly two invitees are accepted. With the creator appended, the group then has three entries.
- `createGroupChat` answers 200, not 201. `registerUser` answers 201.

## Model

| member | source | states |
|---|---|---|
| Mongo.FindFirst | backend/controllers/chatControllers.js:14-33 | the index returned is the first element that satisfies the query, in store order; None exactly when no element does |
| Mongo.FreshId | backend/controllers/chatControllers.js:43 | a newly created document gets a non-empty id that no existing document has |
| Mongo.Push | backend/controllers/chatControllers.js:136-140 | `$push` keeps the old array as a prefix and adds one more copy of the id at the end |
| Mongo.Pull | backend/controllers/chatControllers.js:158-162 | `$pull` leaves no copy of the id and keeps exactly as many copies of every other id |
| Mongo.PullAppend | backend/controllers/chatControllers.js:160 | `$pull` acts element by element, so the remaining members keep their relative order |
| Mongo.PullAbsent | backend/controllers/chatControllers.js:160 | pulling an id that is not present returns the array unchanged |
| Mongo.PullIdempotent | backend/controllers/chatControllers.js:160 | pulling the same id twice gives the same result as pulling it once |
| Mongo.PullPush | backend/controllers/chatControllers.js:136-162 | a pull after a push of the same id leaves the array as a pull alone would; if the id was absent before, the original array comes back exactly |
| ChatModel.NewChatId | backend/controllers/chatControllers.js:43 | a new chat's id differs from the id of every stored chat |
| ChatModel.FindById | backend/controllers/chatControllers.js:114-118 | returns the first chat with the given id; None exactly when no chat has it |
| ChatModel.FindDirect | backend/controllers/chatControllers.js:14-20 | returns the first non-group chat whose users contain both ids; None exactly when no chat matches |
| ChatControllers.AccessChat | backend/controllers/chatControllers.js:5-50 | a missing or empty userId gives 400 with the store unchanged; if a chat matches, the first match is returned with 200 and nothing is written; otherwise exactly one chat is appended with name "sender", not a group, users [caller, userId], no admin and a fresh id, and it is returned with 200; unique chat ids are kept |
| ChatControllers.CreateGroupChat | backend/controllers/chatControllers.js:76-105 | a missing users list or name gives 400 "Please fill all the fields"; fewer than 2 users gives 400 with the group-size message; in both cases the store is unchanged; otherwise exactly one group is appended with the given name, users = given ++ [caller] and admin = caller, so the admin is a member and there are at least 3 entries; the store invariants are kept |
| ChatControllers.FindByIdAndUpdate | backend/controllers/chatControllers.js:114-124 | an unknown id gives 404 "Chat not found" with the store unchanged; otherwise only the located chat is replaced by its update, and the update is returned with 200 |
| ChatControllers.RenameGroup | backend/controllers/chatControllers.js:107-127 | a missing chatId or chatName gives 400; an unknown id gives 404 with the store unchanged; otherwise only that chat's name changes and every other field and chat is kept; unique ids, well-formed groups and distinct direct chats are kept |
| ChatControllers.AddToGroup | backend/controllers/chatControllers.js:129-149 | a missing chatId or userId gives 400; an unknown id gives 404 with the store unchanged; otherwise that chat's users gain userId at the end, with no group, caller or duplicate check, and nothing else changes |
| ChatControllers.RemoveFromGroup | backend/controllers/chatControllers.js:151-171 | a missing chatId or userId gives 400; an unknown id gives 404 with the store unchanged; otherwise every occurrence of userId leaves that chat's users, the others stay in order, and nothing else changes |
| ChatLaws.AccessChatIdempotent | backend/controllers/chatControllers.js:14-45 | calling accessChat(A, B) twice returns the same chat and writes once at most; accessChat(B, A) afterwards returns the same chat and writes nothing |
| ChatLaws.FindDirectSymmetric | backend/controllers/chatControllers.js:14-20 | the one-on-one query finds the same chat whichever of the two ids comes first |
| ChatLaws.AccessChatKeepsDirectChatsDistinct | backend/controllers/chatControllers.js:14-45 | in sequential calls, accessChat never creates a second direct chat with the same member set as an existing one |
| ChatLaws.AccessChatSelfMatchesAnyDirectChat | backend/controllers/chatControllers.js:15-19 | when userId equals the caller, any direct chat that contains the caller is found, and the store is unchanged |
| ChatLaws.FindByIdAfterUpdate | backend/controllers/chatControllers.js:114-118 | updating a chat without changing its id leaves the chat at the same position for a later lookup |
| ChatLaws.AddToGroupAt | backend/controllers/chatControllers.js:136-140 | addToGroup on a chat that the lookup finds appends the user to exactly that chat |
| ChatLaws.RemoveFromGroupAt | backend/controllers/chatControllers.js:158-162 | removeFromGroup on a chat that the lookup finds pulls the user from exactly that chat |
| ChatLaws.CreateGroupChatMinimumSize | backend/controllers/chatControllers.js:82-93 | one invitee is refused with 400; two invitees [B, C] are accepted, giving users [B, C, caller] and admin caller |
| ChatLaws.AddToGroupTwice | backend/controllers/chatControllers.js:136-140 | adding the same user twice leaves two more entries, so the second call changes the store |
| ChatLaws.AddThenRemove | backend/controllers/chatControllers.js:136-162 | add followed by remove of a user gives the same chat as a remove alone |
| ChatLaws.AddThenRemoveRestores | backend/controllers/chatControllers.js:136-162 | adding a non-member and then removing them restores the store exactly |
| ChatLaws.RemoveAbsentIsNoOp | backend/controllers/chatControllers.js:158-170 | removing a non-member answers 200 with the chat and leaves the store unchanged |
| ChatLaws.RemoveTwice | backend/controllers/chatControllers.js:158-162 | a second remove of the same user changes nothing |
| ChatLaws.RemovingAdminBreaksGroup | backend/controllers/chatControllers.js:151-171 | removing a group's admin succeeds and leaves a group whose admin is not a member |
| UserModel.PicOrDefault | backend/Models/userMOdel.js:18-22 | an absent pic is stored as the fixed icon URL; a supplied pic is stored as given |
| UserModel.NewUserId | backend/controllers/userControllers.js:19-24 | a new user's id differs from the id of every stored user |
| UserModel.FindByEmail | backend/controllers/userControllers.js:13 | returns the first user whose email equals the query; an absent email matches nobody |
| UserModel.FindPublicById | backend/middleware/authMiddleware.js:21 | returns the user with that id, without the password, or None exactly when no user has that id |
| UserModel.FindByEmailUnique | backend/Models/userMOdel.js:9-13 | under the unique email index, looking up a stored user's email finds that user |
| UserControllers.RegisterUser | backend/controllers/userControllers.js:5-39 | a missing name, email or password gives 400 "Please Enter all the fields"; an email already stored gives 400 "User already exists"; in both cases the store is unchanged; otherwise exactly one user is appended with the given fields, the default pic if none was given and a fresh id, and 201 returns id, name, email, pic and the token for the id; a well-formed store stays well-formed, with required fields, unique emails and unique ids |
| UserControllers.AuthUser | backend/controllers/userControllers.js:43-60 | succeeds exactly when the first user with the email exists and matchPassword accepts the password; it then returns that first user's fields with a token for its id; an unknown email and a wrong password both give 401 "Invalid email or password"; the store is only read |
| UserControllers.AuthUserUnique | backend/controllers/userControllers.js:46-48 | with unique emails, login succeeds exactly when some user has the email and the password matches that user |
| UserControllers.RegisterThenLogin | backend/controllers/userControllers.js:5-60 | right after a successful registration, login with the same email and password returns the same reply, provided the password check accepts the stored password |
| AuthMiddleware.Split | backend/middleware/authMiddleware.js:12 | `split(' ')` gives at least one field, and no field contains the separator |
| AuthMiddleware.JoinSplit | backend/middleware/authMiddleware.js:12 | joining the fields of a split with the separator gives back the original header |
| AuthMiddleware.SplitJoin | backend/middleware/authMiddleware.js:12 | splitting separator-free fields joined by the separator gives back the fields |
| AuthMiddleware.SplitFieldPrefix | backend/middleware/authMiddleware.js:12 | a separator-free prefix joins onto the first field of the remainder when the whole string is split |
| AuthMiddleware.Protect | backend/middleware/authMiddleware.js:5-35 | an absent, empty or non-"Bearer" header gives 401 "no token"; a request passes exactly when the header starts with "Bearer" and has a non-empty second field that verify accepts; the bound user is the token subject's record, or nobody when no user has that id; every other case gives 401 "token failed" |
| AuthMiddleware.TokenOfBearer | backend/middleware/authMiddleware.js:12 | the token taken from "Bearer <token>" is exactly <token> |
| AuthMiddleware.ProtectWellFormed | backend/middleware/authMiddleware.js:8-29 | a well-formed header passes exactly when verify accepts its token, and the token's subject is bound |
| AuthMiddleware.ProtectEmptyToken | backend/middleware/authMiddleware.js:12-16 | headers "Bearer " and "Bearer  <token>" have an empty second field and give 401 "token failed", whatever verify accepts |
| AuthMiddleware.ProtectBearerAlone | backend/middleware/authMiddleware.js:12-16 | a header of "Bearer" alone has no token and gives 401 "token failed", whatever verify accepts |
| AuthMiddleware.ProtectPrefixWithoutSpace | backend/middleware/authMiddleware.js:8 | the prefix test has no trailing space, so "BearerX <token>" goes on to verification of <token> |
| AuthMiddleware.ProtectCaseSensitive | backend/middleware/authMiddleware.js:8 | the prefix test is case-sensitive, so "bearer <token>" gives 401 "no token" |
| AuthMiddleware.ProtectUnknownSubjectPasses | backend/middleware/authMiddleware.js:21-24 | a valid token whose subject has no user still passes, with no user bound |

## Left out

- `fetchChats` (backend/controllers/chatControllers.js:53-74) is not modelled. It never sends a response and discards its query results, so it has no behaviour to state.
- Relation hydration (`populate`) is not modelled. This covers the `-password` projection of chat members and admin and the latest-message sender join. Responses carry the stored chat record with the stored ids. The joins do more than reshape the reply. `populate("users", ...)` drops every member id that has no User document, and `populate("groupAdmin", ...)` turns an admin id without a user into null. For example, `addToGroup` with a userId that matches no user stores the id, but the program's 200 reply does not list it; the model's reply does.
- `JSON.parse` of the group's `users` field is not modelled. The input is the already parsed list: None stands for an absent or empty field, and malformed JSON, which throws, is not modelled.
- Token signing and verification are foreign cryptography. So are password hashing and checking. They arrive as the parameters `sign`, `verify` and `matchPassword`. backend/Models/userMOdel.js defines neither a `matchPassword` method nor a hashing hook, so passwords are stored as given.
- Casting of malformed ids is not modelled. An id string that is not a valid ObjectId makes `findById`/`findByIdAndUpdate` throw. This model's ids are opaque strings compared for equality, so that path is missing from the controllers and from the gate's lookup, where a throw would become "token failed".
- Store failures are not modelled. This covers `Chat.create` throwing, which would give 400 with the error's message, and the "Failed to create the user" branch. Here a create always succeeds. backend/Models/chatModel.js is not part of this model, so chats get no schema validation.
- backend/middleware/errorMiddleware.js is not part of this model. A thrown error is shown as `Error(status, message)`, using the status the controller set before throwing.
- The controllers for `accessChat` and `createGroupChat` take a present caller id. `protect` can pass a request with no user bound (backend/middleware/authMiddleware.js:21-24), and that path is not modelled. `accessChat` would then throw reading `req.user._id` (backend/controllers/chatControllers.js:17, 39). `createGroupChat` never reads `req.user._id`. It would push null onto the members (line 86) and store a null admin (line 92), creating a group with no admin. The exception is a chat schema that refuses null, and backend/Models/chatModel.js is not part of this model. When a user is bound, `createGroupChat` pushes the caller's whole document, which is stored as its id.
- Body fields are modelled as strings. Non-string JSON values such as numbers or objects are not modelled.
- Route wiring, server bootstrap, the database connection, environment configuration and logging are not modelled. backend/routes/chatRoutes.js routes only `accessChat` and is not mounted by backend/server.js.
- The concurrent check-then-create race in `accessChat` is not modelled. The model is sequential, and the at-most-one-direct-chat property (`ChatLaws.AccessChatKeepsDirectChatsDistinct`) holds per sequential call only.
- Timestamps and the sort by `updatedAt` are not modelled.
- ChatControllers.AddToGroup: does not state that distinct direct chats are kept, because adding a member to a direct chat can make its member set equal another's.
- ChatControllers.RemoveFromGroup: does not state that well-formed groups are kept, because removing the admin breaks that (`ChatLaws.RemovingAdminBreaksGroup`).
- UserControllers.AuthUser: `matchPassword` is a parameter, so the model promises nothing about the program as written. backend/Models/userMOdel.js defines no `matchPassword` method. In the program, `user.matchPassword(password)` (backend/controllers/userControllers.js:48) throws a TypeError for every stored email before any status is set. The error then goes to the error handler, so login can never succeed. Only an unknown email gets 401 "Invalid email or password", which tells known emails from unknown ones. The model's contract describes the login that the code evidently intends.
