# mern-chat-app core in Dafny

This project models the backend and chat-page rules of a small chat application. Users sign up and log in. They exchange direct messages with an optional file attachment. An administrator manages the user roster.

The model covers these parts:

- **Presence** (`presence.dfy`): the socket server's in-memory `onlineUsers` map and its `register`, `send_message` and `disconnect` handlers. The map is modelled in `Map` insertion order, and runs of handlers are modelled too.
- **Chat** (`chat.dfy`): the message controller.
  - `sendMessage` stores a message between two known users and broadcasts its denormalised view.
  - `getMessages` returns the conversation of an unordered pair of users, oldest first.
- **ChatClient** (`chat_client.dfy`): the chat page's client-side rules.
  - De-duplication of pushed messages.
  - The send guard.
  - The 5 MB attachment check.
  - The inline-image test.
- **Upload** (`upload.dfy`): the chat upload middleware.
  - Node's `path.extname`.
  - The extension and MIME-type filter.
  - The stored file name, with its round trip.
  - The 50 MB limit.
- **Admin** (`admin.dfy`): the admin controller.
  - Listing, adding, updating, deleting and blocking users.
  - The spreadsheet import: its upload filter, its row loop and its counters.
- **AuthMiddleware** (`auth_middleware.dfy`): bearer-token extraction and the 401/403 decisions of the protected routes.
- **AuthController** (`auth_controller.dfy`): `signup`, `login` and `validateToken`.
- **Shared modules**:
  - `JsValue`: absent values and JavaScript truthiness.
  - `JsText`: ASCII case folding, `trim`, `split`/`join`, suffix and substring tests, `lastIndexOf`, decimal rendering.
  - `Directory`: the user collection as an ordered sequence, with a counter for fresh ids.
  - `Seqs`: removing one element of a sequence, shared by the presence map and the user collection.

The database, the socket transport, bcrypt and JWT are replaced by values and function parameters:

- `hash`, `compare`, `sign` and `verify` are parameters.
- The clock is a `now: nat` parameter.
- A message's id is its position in the store.
- `req.app.get('socketio')` is a boolean `ioAttached`. With `server.js` as written it is never set, so `sendMessage` stores the message and then answers 500.

Where the design description of the system and the code disagree, the model follows the code:

- The backend stores an empty message with no file (`Chat.EmptyMessageAccepted`). Only the chat page refuses to send one.
- `sendMessage` does not route through the presence map. It broadcasts `new_message` to every socket. The presence-routed push is the separate `send_message` socket event.
- The socket server does not authenticate connections.
- Closing a stale socket is a no-op only when no other user is bound to it (`Presence.StaleSocketDisconnect`, `Presence.SharedSocketLeavesStaleEntry`).

## Model

| member | source | states |
|---|---|---|
| Presence.Init | mern-chat-app/backend/server.js:34 | the server starts with no user bound to any socket and no event sent |
| Presence.Lookup | mern-chat-app/backend/server.js:51 | `onlineUsers.get(u)` is absent exactly when `u` is not a key; otherwise it returns the socket of `u`'s entry |
| Presence.LookupEntry | mern-chat-app/backend/server.js:34 | in a map with unique keys, looking up an entry's user finds that entry's socket |
| Presence.Put | mern-chat-app/backend/server.js:42 | `set` keeps keys unique, adds `u` to the key set, binds `u` to the new socket and leaves every other user's binding unchanged |
| Presence.DeleteLookup | mern-chat-app/backend/server.js:68 | `onlineUsers.delete` of one entry unbinds exactly that entry's user and leaves every other binding as it was |
| Presence.OnRegister | mern-chat-app/backend/server.js:41-46 | register binds the user to this socket (last registration wins), leaves other users alone and appends exactly one `user_online` broadcast |
| Presence.OnSendMessage | mern-chat-app/backend/server.js:49-62 | the map is never changed; an unregistered receiver gets nothing; a registered one gets one `receive_message` with the payload and the server time, on its bound socket |
| Presence.OnDisconnect | mern-chat-app/backend/server.js:65-74 | a socket bound to nobody changes nothing; otherwise only the first entry bound to it is removed, and that entry's user is announced offline once |
| Presence.Step | mern-chat-app/backend/server.js:37-75 | every handler keeps keys unique and emits at most one event |
| Presence.Run | mern-chat-app/backend/server.js:37-75 | a run of handlers keeps keys unique and only appends to the event log |
| Presence.OnlineAnnouncements | mern-chat-app/backend/server.js:41-46 | over any run, the number of `user_online(u)` broadcasts equals the number of `register(u)` events |
| Presence.SendReachesLatestSocket | mern-chat-app/backend/server.js:42-54 | a message to a user who has just registered goes to the socket of that registration |
| Presence.StaleSocketDisconnect | mern-chat-app/backend/server.js:65-72 | after re-registering on a second socket, closing the first leaves the user bound to the second; it has no effect when nobody else used the first |
| Presence.SharedSocketLeavesStaleEntry | mern-chat-app/backend/server.js:66-71 | when two users register on one socket, its close removes only the first and leaves the second bound to the dead socket |
| Directory.FindById | mern-chat-app/backend/controllers/chatController.js:11-14 | `findById` finds nothing exactly when no user has the id; otherwise it finds a stored user with that id |
| Directory.FindByContact | mern-chat-app/backend/controllers/adminController.js:44 | `findOne({$or:[{email},{mobileNo}]})` is empty exactly when no user shares the email or the mobile number |
| Directory.FindByEmail | mern-chat-app/backend/controllers/authController.js:41 | `findOne({email})` is empty exactly when no user has that email; otherwise it finds a user with it |
| Directory.Create | mern-chat-app/backend/controllers/adminController.js:49-58 | a created user gets an id no stored user has, is not blocked, and is appended; ids stay unique |
| Directory.CreateKeepsUniqueContacts | mern-chat-app/backend/controllers/adminController.js:44-58 | creating a user after the uniqueness check keeps emails and mobile numbers unique |
| Chat.SendMessage | mern-chat-app/backend/controllers/chatController.js:4-69 | 404 and nothing stored iff a participant is unknown; otherwise the message is stored with `content \|\| ''` and the next id; 201 with the broadcast view iff a socket server is attached, 500 after storing otherwise |
| Chat.ViewOf | mern-chat-app/backend/controllers/chatController.js:35-50 | the view copies id, content, file path and time, and projects both participants to id, name and email of stored users |
| Chat.Format | mern-chat-app/backend/controllers/chatController.js:85-100 | the response maps each resolvable message, in order, to its view |
| Chat.EmptyMessageAccepted | mern-chat-app/backend/controllers/chatController.js:20-26 | the backend stores a message with no text and no file |
| Chat.SelfMessageAccepted | mern-chat-app/backend/controllers/chatController.js:11-18 | a user can message themself |
| Chat.Conversation | mern-chat-app/backend/controllers/chatController.js:75-80 | the query selects exactly the stored messages between the two users, in either direction |
| Chat.ConversationSymmetric | mern-chat-app/backend/controllers/chatController.js:76-79 | the query is the same for (a, b) and (b, a) |
| Chat.SortByTime | mern-chat-app/backend/controllers/chatController.js:83 | sorting by timestamp is a permutation whose result is ordered by time, ties in insertion order |
| Chat.GetMessages | mern-chat-app/backend/controllers/chatController.js:70-110 | a history iff every participant still exists (500 otherwise); it has one view per matching message, only views of matching messages, oldest first |
| Chat.HistorySymmetric | mern-chat-app/backend/controllers/chatController.js:75-83 | both participants see the same history |
| Chat.SendThenHistory | mern-chat-app/backend/controllers/chatController.js:20-28 | after a successful send at the latest time, the history is the previous history with the new message's view appended |
| ChatClient.ReceiveMerge | mern-chat-app/frontend/src/components/Chat/ChatPage.jsx:32-41 | a pushed message is appended unless a message with the same id is displayed, in which case the list is unchanged |
| ChatClient.ReceiveIdempotent | mern-chat-app/frontend/src/components/Chat/ChatPage.jsx:33-39 | receiving the same message twice displays it once |
| ChatClient.ReceiveKeepsDistinct | mern-chat-app/frontend/src/components/Chat/ChatPage.jsx:35-38 | a push keeps displayed ids distinct and leaves its id displayed |
| ChatClient.ReceiveAllDistinct | mern-chat-app/frontend/src/components/Chat/ChatPage.jsx:32-41 | after any run of pushes, ids stay distinct and every pushed id is displayed |
| ChatClient.IdlessPushesCollapse | mern-chat-app/frontend/src/components/Chat/ChatPage.jsx:35 | the live push carries no id, so once one id-less message is shown every later push is dropped |
| ChatClient.LocalAppend | mern-chat-app/frontend/src/components/Chat/ChatPage.jsx:113-114 | the sender's own message is appended at the end with no duplicate check |
| ChatClient.LocalAppendDistinct | mern-chat-app/frontend/src/components/Chat/ChatPage.jsx:113-114 | the local append shows an id twice whenever the sent id is already displayed, and keeps distinct ids distinct when it is not |
| ChatClient.CanSend | mern-chat-app/frontend/src/components/Chat/ChatPage.jsx:91 | sending proceeds iff no upload runs and there is a file or a text that is not all white space |
| ChatClient.BlankTextNotSent | mern-chat-app/frontend/src/components/Chat/ChatPage.jsx:91 | a text of spaces alone, with no file, is not sent |
| ChatClient.HandleFileChange | mern-chat-app/frontend/src/components/Chat/ChatPage.jsx:80-88 | the alert shows iff nothing is selected or the file is over 5 MB; then the previous attachment stays; otherwise the selection becomes the attachment |
| ChatClient.HandleFileChangeKeepsLimit | mern-chat-app/frontend/src/components/Chat/ChatPage.jsx:82 | the attachment never exceeds 5 MB |
| ChatClient.FileLimitBoundary | mern-chat-app/frontend/src/components/Chat/ChatPage.jsx:82 | 5242880 bytes are accepted; 5242881 bytes raise the alert |
| ChatClient.IsImageAttachment | mern-chat-app/frontend/src/components/Chat/ChatPage.jsx:170 | `/\.(jpg\|jpeg\|png\|gif)$/i` matches only a path that contains a dot |
| ChatClient.ImageMatchIsLastDot | mern-chat-app/frontend/src/components/Chat/ChatPage.jsx:170 | a path is shown inline iff the text after its last dot, ignoring case, is jpg, jpeg, png or gif |
| ChatClient.ImageMatchExamples | mern-chat-app/frontend/src/components/Chat/ChatPage.jsx:170 | `a.JPG` is an image; `a.jpg.pdf` is not |
| JsText.Lower | mern-chat-app/backend/controllers/adminController.js:144 | `toLowerCase` keeps the length, folds each character on its own, and leaves no ASCII capital |
| JsText.LastIndexOf | mern-chat-app/backend/middleware/uploadMiddleware.js.js:26 | the index of the last occurrence, with no occurrence after it, or -1 exactly when there is none |
| JsText.EndsWithExtIsLastDot | mern-chat-app/backend/middleware/uploadMiddleware.js.js:25 | for dot-free extensions, `/\.(…)$/i` matches iff the folded text after the last dot is one of them |
| JsText.TrimEmptyIffAllSpace | mern-chat-app/frontend/src/components/Chat/ChatPage.jsx:91 | `trim()` gives the empty string iff the text is all white space |
| JsText.JoinSplit | mern-chat-app/backend/middleware/authMiddleware.js:5 | joining the fields of `split` with the separator gives back the string |
| JsText.SplitJoin | mern-chat-app/backend/middleware/authMiddleware.js:5 | splitting a join of separator-free fields gives back the fields |
| JsText.DecimalRoundTrip | mern-chat-app/backend/middleware/uploadMiddleware.js.js:18 | the decimal rendering of `Date.now()` reads back as the same number |
| Upload.TrimTrailingSlashes | mern-chat-app/backend/middleware/uploadMiddleware.js.js:26 | `path.extname` first drops the trailing slashes: the result is a prefix, followed only by slashes, and does not end in one |
| Upload.Basename | mern-chat-app/backend/middleware/uploadMiddleware.js.js:26 | the last path component holds no slash |
| Upload.Extname | mern-chat-app/backend/middleware/uploadMiddleware.js.js:26 | `path.extname` is empty or starts with a dot |
| Upload.ExtnameShape | mern-chat-app/backend/middleware/uploadMiddleware.js.js:26 | `path.extname` is empty, or a leading dot followed by dot-free text that ends the last path component |
| Upload.ExtnameOfName | mern-chat-app/backend/middleware/uploadMiddleware.js.js:26 | the extension of `x.e` is `.e` |
| Upload.HiddenFileHasNoExt | mern-chat-app/backend/middleware/uploadMiddleware.js.js:26 | a name whose only dot comes first has no extension |
| Upload.FileFilter | mern-chat-app/backend/middleware/uploadMiddleware.js.js:24-46 | a file passes only when its name has an extension and its MIME type is one of the eight listed |
| Upload.FileFilterByExtension | mern-chat-app/backend/middleware/uploadMiddleware.js.js:24-46 | a file passes iff it has an extension, the extension without its dot folds to a listed one, and the MIME type is listed |
| Upload.NoExtensionRejected | mern-chat-app/backend/middleware/uploadMiddleware.js.js:25-26 | a name without an extension is refused |
| Upload.HiddenFileRejected | mern-chat-app/backend/middleware/uploadMiddleware.js.js:25-26 | `.jpg` alone is refused |
| Upload.UnlistedTypeRejected | mern-chat-app/backend/middleware/uploadMiddleware.js.js:28-45 | every MIME type outside the list is refused, whatever the name |
| Upload.XlsUploadRejected | mern-chat-app/backend/middleware/uploadMiddleware.js.js:25-39 | `.xls` passes the extension test but its MIME type is not listed, so an `.xls` workbook is always refused |
| Upload.ExtensionCaseIgnored | mern-chat-app/backend/middleware/uploadMiddleware.js.js:25-42 | `x.e` of a listed type passes whenever `e`, folded to lower case, is a listed extension, so `x.PNG` passes like `x.png` |
| Upload.StoredFilename | mern-chat-app/backend/middleware/uploadMiddleware.js.js:16-19 | the stored name starts with the owner id and a dash and ends with a dash and the original name |
| Upload.ParseStoredFilename | mern-chat-app/backend/middleware/uploadMiddleware.js.js:18 | a stored name that reads back gives an owner id without a dash |
| Upload.StoredFilenameRoundTrip | mern-chat-app/backend/middleware/uploadMiddleware.js.js:18 | a stored name gives back owner, time and original name when the owner id has no dash |
| Upload.Accept | mern-chat-app/backend/middleware/uploadMiddleware.js.js:24-55 | wrong type iff the filter refuses; too large iff it passes but exceeds 50 MB; a stored file's name reads back to owner, time and name |
| Admin.ListStatus | mern-chat-app/backend/controllers/adminController.js:14-25 | 200 exactly for a listing, 404 exactly when there are no users |
| Admin.GetUsers | mern-chat-app/backend/controllers/adminController.js:9-30 | 404 iff there are no users; otherwise every user |
| Admin.AddStatus | mern-chat-app/backend/controllers/adminController.js:38-59 | 201 exactly for an added user; both refusals are 400 |
| Admin.AddUser | mern-chat-app/backend/controllers/adminController.js:34-64 | 400 iff email, mobile number or password is falsy, or (all present) some user shares the email or mobile; otherwise the user is appended with a fresh id and the hashed password |
| Admin.AddUserKeepsUniqueContacts | mern-chat-app/backend/controllers/adminController.js:44-58 | adding keeps emails and mobile numbers unique |
| Admin.AddUserWithoutName | mern-chat-app/backend/controllers/adminController.js:38 | a user with no name is added |
| Admin.ApplyPatch | mern-chat-app/backend/controllers/adminController.js:70-72 | the id never changes and an empty body leaves the user as it was |
| Admin.ApplyPatchTwice | mern-chat-app/backend/controllers/adminController.js:70-72 | writing the same body twice gives the same user as writing it once |
| Admin.UpdateStatus | mern-chat-app/backend/controllers/adminController.js:73-77 | 200 exactly for an update, 404 exactly when no user has the id |
| Admin.UpdateUser | mern-chat-app/backend/controllers/adminController.js:67-82 | 404 iff no user has the id; otherwise only that user changes, and only in the fields the body carries |
| Admin.UpdateStoresPasswordVerbatim | mern-chat-app/backend/controllers/adminController.js:70-72 | a new password is stored as sent, unhashed |
| Admin.UpdateMayDuplicateContact | mern-chat-app/backend/controllers/adminController.js:72 | an update can give two users the same email |
| Admin.DeleteStatus | mern-chat-app/backend/controllers/adminController.js:90-94 | 200 exactly for a deletion, 404 exactly when no user has the id |
| Admin.DeleteUser | mern-chat-app/backend/controllers/adminController.js:85-99 | 404 iff no user has the id; otherwise exactly the users with another id remain |
| Admin.DeleteBreaksHistory | mern-chat-app/backend/controllers/adminController.js:89 | deleting a user keeps their messages, so the other participant's history of that conversation answers 500 |
| Admin.BlockMessage | mern-chat-app/backend/controllers/adminController.js:219 | the message says blocked iff the new flag is set, unblocked iff it is not |
| Admin.BlockStatus | mern-chat-app/backend/controllers/adminController.js:211-221 | 200 exactly for a toggle, 404 exactly when no user has the id |
| Admin.BlockUser | mern-chat-app/backend/controllers/adminController.js:206-226 | 404 iff no user has the id; otherwise only that user's flag flips, with the matching message |
| Admin.BlockTwiceRestores | mern-chat-app/backend/controllers/adminController.js:215 | blocking twice gives back the original store |
| Admin.ImportFilterAsWritten | mern-chat-app/backend/controllers/adminController.js:141-152 | the filter as written never accepts an upload declared with either Excel MIME type |
| Admin.ImportFilter | mern-chat-app/backend/controllers/adminController.js:141-152 | the corrected filter accepts everything the filter as written accepts, and beyond that only uploads declared with an Excel MIME type |
| Admin.ExcelImportRefusedAsWritten | mern-chat-app/backend/controllers/adminController.js:141-152 | the filter as written refuses every upload declared as an xlsx or xls workbook |
| Admin.ImportFilterAcceptsSpreadsheets | mern-chat-app/backend/controllers/adminController.js:141-152 | the corrected filter accepts `x.xlsx`, `x.xls` and `x.csv`, each declared with its own MIME type |
| Admin.ImportFiltersAgreeOnCsv | mern-chat-app/backend/controllers/adminController.js:142-145 | on `text/csv` uploads both filters decide the same |
| Admin.ImportRow | mern-chat-app/backend/controllers/adminController.js:174-188 | a row is imported iff all four fields are truthy and nobody (earlier rows included) has its email or mobile; imported plus skipped grows by one |
| Admin.ImportRows | mern-chat-app/backend/controllers/adminController.js:170-189 | imported plus skipped equals the number of rows; exactly the imported users are appended |
| Admin.ImportKeepsUniqueContacts | mern-chat-app/backend/controllers/adminController.js:181-184 | the import keeps emails and mobile numbers unique |
| Admin.ImportedFromCompleteRows | mern-chat-app/backend/controllers/adminController.js:176-184 | every imported user was created from a complete row with its hashed password |
| Admin.ImportLoop | mern-chat-app/backend/controllers/adminController.js:170-189 | the loop computes the import state and its counters sum to the number of rows |
| Admin.ImportFilename | mern-chat-app/backend/controllers/adminController.js:135 | the import's stored name reads back as `import`, the time and the original name |
| Admin.ImportStatus | mern-chat-app/backend/controllers/adminController.js:141-200 | 200 exactly for an import, 400 exactly without a file, 500 exactly for a refused or oversize upload |
| Admin.ImportJudged | mern-chat-app/backend/controllers/adminController.js:153-197 | no file is 400; a refused or over-5-MB file fails; otherwise the outcome is the fold of the rows |
| Admin.ImportUsers | mern-chat-app/backend/controllers/adminController.js:139-203 | with the filter as written: failure iff a file is present and the filter refuses it or it exceeds 5 MB; 400 iff no file; otherwise the users appended and the counts are exactly those of the row fold |
| Admin.ImportUsersIntended | mern-chat-app/backend/controllers/adminController.js:139-203 | the same handler with the corrected filter: failure iff that filter refuses or the file exceeds 5 MB; otherwise the row fold |
| Admin.ImportCorrectionOnlyAddsExcel | mern-chat-app/backend/controllers/adminController.js:141-152 | whatever the handler as written imports, the corrected one imports identically; they differ only on uploads declared as Excel, which the handler as written answers with 500 and the corrected one imports |
| Admin.XlsxImportAsWrittenAndIntended | mern-chat-app/backend/controllers/adminController.js:141-152 | an `x.xlsx` workbook within 5 MB gets 500 as written and is imported with the correction |
| AuthMiddleware.BearerToken | mern-chat-app/backend/middleware/authMiddleware.js:5 | the token exists iff the header has a space, and it contains no space |
| AuthMiddleware.BearerTokenOfHeader | mern-chat-app/backend/middleware/authMiddleware.js:5 | `Bearer <token>` yields the token |
| AuthMiddleware.FailureStatus | mern-chat-app/backend/middleware/authMiddleware.js:7-37 | an invalid token is 403; every other failure is 401 |
| AuthMiddleware.Authenticate | mern-chat-app/backend/middleware/authMiddleware.js:4-39 | no token 401; expired 401; invalid or uncastable id 403; unknown user 401; otherwise passes on as the user the token names |
| AuthMiddleware.BlockedUserAuthenticates | mern-chat-app/backend/middleware/authMiddleware.js:16-29 | a blocked user's valid token still passes |
| AuthController.SignupStatus | mern-chat-app/backend/controllers/authController.js:12-32 | 201 exactly for a sign-up, 400 exactly for a taken contact, 500 exactly for an error |
| AuthController.Signup | mern-chat-app/backend/controllers/authController.js:6-34 | 400 iff a user shares the email or mobile; 500 iff none does but the password is missing; otherwise the user is appended with the hashed password |
| AuthController.SignupKeepsUniqueContacts | mern-chat-app/backend/controllers/authController.js:11-28 | sign-up keeps emails and mobile numbers unique |
| AuthController.LoginStatus | mern-chat-app/backend/controllers/authController.js:42-53 | 200 exactly for a log-in, 404 for an unknown email, 400 for a wrong password, 500 for an error |
| AuthController.Login | mern-chat-app/backend/controllers/authController.js:37-55 | 404 iff no user has the email; 500 iff the password is missing; 400 when it does not match; otherwise a token signed with the user's id and their profile |
| AuthController.SignupThenLogin | mern-chat-app/backend/controllers/authController.js:17-51 | after signing up, logging in with the same email and password succeeds as the new user |
| AuthController.LoginTokenAuthenticates | mern-chat-app/backend/controllers/authController.js:49-51 | the token a log-in hands out, sent as `Bearer <token>`, passes the middleware as the same user |
| AuthController.PlainPasswordFailsLogin | mern-chat-app/backend/controllers/authController.js:45-46 | a password stored in plain text by an update no longer logs in |
| AuthController.ValidateStatus | mern-chat-app/backend/controllers/authController.js:62-70 | 200 exactly for a valid token, 401 exactly without a token, 403 exactly for a refused one |
| AuthController.ValidateToken | mern-chat-app/backend/controllers/authController.js:59-72 | 401 iff no token; 403 iff the token does not verify (expired included); otherwise 200 with the claims |
| AuthController.ExpiredTokenStatuses | mern-chat-app/backend/controllers/authController.js:69-70 | an expired token is 401 for the middleware but 403 for the token check |
| AuthController.DeletedUserTokenStillValid | mern-chat-app/backend/controllers/authController.js:66-68 | the token check accepts a deleted user's token, which the middleware refuses |

## Left out

- Database I/O: the Mongo queries and saves are modelled as operations on sequences.
- ObjectId casting: only the cast failure in the middleware is modelled, as `Valid(None)`. A malformed id in the admin routes, `sendMessage` or `getMessages` (its `otherUserId`) gives a 500 from a cast error; this is not modelled.
- socket.io delivery: emitted events are recorded in a log, and delivery to clients is not modelled.
- `exportUsers`: it only reads users and writes a workbook, so it is left out with the spreadsheet codec.
- Spreadsheet parsing: import rows arrive already read. Cells are modelled as text, and `password.toString()` on a numeric cell is not modelled.
- Multer storage: disk paths, `mkdir` and `unlinkSync` after the import are left out. Only the filters, the file names and the size limits are modelled.
- Hashing, token signing and token verification (bcrypt, JWT and its 1-hour expiry) are function parameters. The clock is a `nat` parameter.
- Chat page rendering, scrolling, axios calls and the profile fetches are not modelled. Only the page's decision rules are.
- The Mongoose schemas are not part of this model: schema validation, `required` and `unique` indexes are not enforced.
- Routes and app configuration are not part of this model: CORS, static file serving and environment variables are left out.
- Upload.ExtnameShape: `path.extname` is modelled for POSIX paths only; Windows separators are not handled.
- Admin.UpdateUser: a body field set to `null` for the password is written as-is by the source; the model's password field cannot be absent, so a null password is not modelled.
- JsText.Lower: folds ASCII letters only; full Unicode `toLowerCase` is not modelled, which does not change any comparison against the ASCII patterns here.
- Chat.SortByTime: the database does not promise an order among equal timestamps; the model breaks ties by insertion order.
- Directory.FindByEmail and Directory.FindByContact: when a body field is missing, `login`'s `findOne({ email })` and `signup`'s `$or` query receive `undefined`. The model compares it as an absent value, so it matches exactly the users without that field. Mongoose's own handling of an `undefined` filter value depends on its `strictQuery` setting and is not modelled.
- Unexpected failures (database down, a save that throws) are not modelled; the 500 answers that are modelled come from paths the code itself reaches.

## Findings

| source | as written | input that shows it | evidently intended | confidence | as-written member | corrected member |
|---|---|---|---|---|---|---|
| mern-chat-app/backend/controllers/adminController.js:141-152 | the import's file filter tests the declared MIME type against the unanchored pattern `xlsx\|xls\|csv` | `users.xlsx` declared as `application/vnd.openxmlformats-officedocument.spreadsheetml.sheet` is refused, as is `users.xls` declared as `application/vnd.ms-excel`; only CSV passes | accept the two Excel MIME types as well, as the refusal message ("Only Excel files are allowed") says | not executed | Admin.ImportUsers, Admin.ExcelImportRefusedAsWritten | Admin.ImportUsersIntended, Admin.ImportFilterAcceptsSpreadsheets |
