# ai-notes, modelled in Dafny

A model of the core of ai-notes, a note-taking app with an Express/MongoDB
backend and a Next.js client.

On the backend it covers:

- signup and login, which issue bearer tokens and record them on the user document;
- the bearer-token middleware;
- the `/me` profile routes: read, update and delete;
- the note schema;
- the note upload and list routes.

On the client it covers:

- the note card's image list, image viewer and audio clock;
- the voice-note composer: submit/close, the recording timer, the speech transcript and audio chunks;
- `timeAgo`;
- `base64ToFile`;
- the profile page's initials and update diff;
- the layout's avatar initials;
- the home page's search, sort and view states;
- the authentication context.

Each source file is one module in one `.dfy` file. JavaScript's string built-ins are in
`Text`:

- `trim`
- `split` with a string separator, and `join`
- `includes`
- `startsWith`
- `padStart`
- ASCII `toLowerCase` and `toUpperCase`
- the decimal rendering of a natural number

`Array.prototype.filter` is in `Seqs`. `Option` is in `Wrappers`.

External services are parameters:

| Source call | Parameter in the model |
|---|---|
| `jwt.sign` | the token it returns (`token`) |
| `jwt.verify` | `verify: string -> Option<UserId>` |
| `comparePassword` | `matches` |
| zod's email check | `isEmail` |
| the Supabase bucket | `Storage`: `accepts`, `uuid`, `publicUrl` |
| `atob` | `decode` |
| `new Date(..).getTime()` | `parseTime` |

MongoDB collections are a `map` from id to record (users) and a sequence in insertion order
(notes). A handler is a function from the collection and the request to the new collection
and the reply.

## Model

| member | source | states |
|---|---|---|
| UserStore.Least | apps/http-backend/src/controllers/authController.ts:23 | the result is in the set and is below every other element |
| UserStore.FindByEmail | apps/http-backend/src/controllers/authController.ts:23 | `None` exactly when no user has the email; otherwise a user with that email, the oldest one |
| UserStore.FindByEmailUnique | apps/http-backend/src/controllers/authController.ts:57 | when emails are unique, looking up a user's email finds that user |
| UserStore.FindByEmailSameEmails | apps/http-backend/src/controllers/authController.ts:74-75 | the lookup depends only on ids and emails, so pushing a token does not change whom it finds |
| Zod.MinLengthIssues | apps/http-backend/src/controllers/authController.ts:10-12 | no issue exactly when the value is present with the minimum length, or is absent and optional; at most one issue, on that field |
| Zod.EmailIssues | apps/http-backend/src/controllers/authController.ts:11 | no issue exactly when the value is present and passes the format test, or is absent and optional |
| AuthController.SignupIssues | apps/http-backend/src/controllers/authController.ts:9-13 | no issues exactly when the body meets all three field rules |
| AuthController.Signup | apps/http-backend/src/controllers/authController.ts:16-50 | invalid body: 400 with the issues, store untouched. Registered email: 400 "User already exists". Otherwise exactly one new user with the given name, email and password and exactly the issued token, answered with 201; every other user is unchanged |
| AuthController.Login | apps/http-backend/src/controllers/authController.ts:52-81 | unknown email: 400 "User not found". Wrong password: 400 "Invalid password". A token is issued exactly when the password matches, appended to that user's tokens. No other record and no name, email or password changes |
| AuthController.SignupKeepsEmailsUnique | apps/http-backend/src/controllers/authController.ts:22-30 | signup preserves email uniqueness of the store |
| AuthController.LoginKeepsEmailsUnique | apps/http-backend/src/controllers/authController.ts:73-75 | login preserves email uniqueness of the store |
| AuthController.SessionsCoexist | apps/http-backend/src/controllers/authController.ts:73-75 | two logins keep both tokens, after all earlier ones, so earlier sessions stay valid |
| AuthMiddleware.ExtractToken | apps/http-backend/src/middleware/authMiddleware.ts:45 | the token is the text after "Bearer " up to the next "Bearer " or the end, and contains no "Bearer " |
| AuthMiddleware.ExtractTokenOfHeader | apps/http-backend/src/middleware/authMiddleware.ts:39-45 | the header "Bearer " + t yields t when t contains no "Bearer " |
| AuthMiddleware.Authenticate | apps/http-backend/src/middleware/authMiddleware.ts:31-82 | each 401 case with its message, in the source's order. The request passes exactly when the token verifies to an existing user who still lists it, and `req.user` is that user's id, email and name |
| AuthMiddleware.CompactTokenHasNoBearer | apps/http-backend/src/controllers/authController.ts:33-35 | a compact JWT never contains "Bearer " |
| AuthMiddleware.ListedTokenAdmits | apps/http-backend/src/middleware/authMiddleware.ts:58-73 | a listed token that verifies to its user admits "Bearer <token>" as that user |
| AuthMiddleware.SignupTokenAdmits | apps/http-backend/src/controllers/authController.ts:33-41 | the token signup returns admits the new user |
| AuthMiddleware.LoginTokenAdmits | apps/http-backend/src/controllers/authController.ts:69-77 | the token login returns admits the logged-in user |
| UserRoutes.UpdateIssues | apps/http-backend/src/routes/User.ts:9-16 | no issues exactly when every present field passes its rule; each issue names a present field that fails |
| UserRoutes.HandleErrorResponse | apps/http-backend/src/routes/User.ts:19-30 | `success` is false, with the given status and message; `details` is included exactly when it is truthy |
| UserRoutes.GetMe | apps/http-backend/src/routes/User.ts:33-48 | 401 without `req.user`, otherwise that user |
| UserRoutes.GetMeAfterAuthenticate | apps/http-backend/src/routes/User.ts:33-48 | after the middleware admits a header, `/me` answers with the stored id, email and name of the user the token belongs to |
| UserRoutes.ApplyUpdate | apps/http-backend/src/routes/User.ts:71-78 | absent fields and the token list keep their old values |
| UserRoutes.UpdateMe | apps/http-backend/src/routes/User.ts:51-93 | 401, then 400 "Validation failed" with details, then 404. The update happens exactly for a valid body and an existing user. It writes the supplied fields into that one record; absent fields and the token list keep their values, the reply is the updated record, and every other record is left alone |
| UserRoutes.UpdateErrorDetails | apps/http-backend/src/routes/User.ts:51-69 | a 400 carries the formatted validation issues, which are non-empty; a 401 or 404 carries no details, and every failure has `success` false |
| UserRoutes.DeleteMe | apps/http-backend/src/routes/User.ts:96-117 | 401, then 404; on success exactly the caller's record is gone and no other record changes |
| UserRoutes.UpdateKeepsSessions | apps/http-backend/src/routes/User.ts:71-78 | a session admitted before an update is still admitted after it |
| UserRoutes.EmptyUpdateChangesNothing | apps/http-backend/src/routes/User.ts:71-82 | an empty body answers with the unchanged user and leaves the store as it was |
| UserRoutes.DeletedUserIsLockedOut | apps/http-backend/src/routes/User.ts:106-112 | after deletion no header authenticates as the deleted user, and other users' sessions still pass |
| NoteModel.NoteIssues | apps/http-backend/src/models/Notes.ts:9-31 | no issues exactly when the note is valid. Title required exactly when the trimmed title is missing or empty; too long exactly above 100 characters; owner required exactly when the owner is missing |
| NoteModel.TitleIssues | apps/http-backend/src/models/Notes.ts:9-14 | "required" exactly when the trimmed title is missing or empty, "too long" exactly when it has more than 100 characters, nothing otherwise |
| NoteModel.ContentIssues | apps/http-backend/src/models/Notes.ts:15-19 | "required" exactly when the trimmed content is missing or empty, nothing otherwise |
| NoteModel.CastNote | apps/http-backend/src/models/Notes.ts:7-31 | saved exactly when valid. The stored title and content are the trimmed inputs, so the title has 1 to 100 characters with no space at either end. Images default to the empty list |
| NoteModel.CastIsStable | apps/http-backend/src/models/Notes.ts:9-19 | a saved document passes the schema again unchanged |
| NoteRoutes.ImagePaths | apps/http-backend/src/routes/Note.ts:76-84 | one path `images/<uuid>-<name>` per image, in order |
| NoteRoutes.UploadImages | apps/http-backend/src/routes/Note.ts:73-105 | the uploads are a prefix of the planned paths. No failure exactly when every upload is accepted, and then there is one public URL per path; otherwise it stops at the first rejected upload |
| NoteRoutes.UploadsSucceedSplit | apps/http-backend/src/routes/Note.ts:38-105 | every planned upload succeeds exactly when the audio upload and each image upload do |
| NoteRoutes.UploadImagesAndSave | apps/http-backend/src/routes/Note.ts:73-133 | an image failure gives 500 "Failed to upload image" with nothing saved. A note is created exactly when all uploads succeed and the fields validate; it is appended with its owner, audio URL and image URLs in order |
| NoteRoutes.HandleUpload | apps/http-backend/src/routes/Note.ts:38-133 | audio is uploaded first, and its failure gives 500 "Failed to upload audio" before any image. On success every planned upload was made and the note carries the URLs |
| NoteRoutes.CreateNote | apps/http-backend/src/routes/Note.ts:11-24 | over the multer limits, no upload is made and nothing is saved. A note is created exactly when within limits, all uploads succeed and the fields validate; it has at most five images |
| NoteRoutes.RejectedNoteLeavesUploads | apps/http-backend/src/routes/Note.ts:107-116 | when validation fails after the uploads, every upload was made and succeeded, and no note exists: the objects are orphaned |
| NoteRoutes.ListNotes | apps/http-backend/src/routes/Note.ts:140 | exactly the caller's notes as a subsequence of the store, each as often as stored |
| NoteRoutes.ServeListNotes | apps/http-backend/src/routes/Note.ts:137-153 | 401 unless the middleware admits. Otherwise the list is exactly the authenticated user's notes: a subsequence of the store holding each of them as often as stored and no other user's note |
| NoteRoutes.SaveNote | apps/http-backend/src/routes/Note.ts:107-126 | a note is created exactly when the fields validate, and it is appended to the store with the given owner, audio and images; otherwise 500 and the store is unchanged |
| NoteRoutes.ListAppendOne | apps/http-backend/src/routes/Note.ts:140 | appending a note extends its owner's list by that note and leaves every other user's list unchanged |
| NoteRoutes.CreatedNoteIsListed | apps/http-backend/src/routes/Note.ts:107-126 | a created note is added to its owner's list, after the notes already listed, and other users' lists do not change |
| Seqs.Filter | apps/http-backend/src/routes/Note.ts:140 | the result is a subsequence holding exactly the elements that pass, each as often as in the input |
| Seqs.FilterAppend | apps/http-backend/src/routes/Note.ts:116 | filtering distributes over concatenation |
| Text.Trim | apps/http-backend/src/models/Notes.ts:12 | the result has no whitespace at either end, and is empty exactly when the input is all whitespace |
| Text.TrimIsSlice | apps/http-backend/src/models/Notes.ts:12 | the input is a run of whitespace, then the trimmed string, then another run of whitespace |
| Text.TrimIdempotent | apps/http-backend/src/models/Notes.ts:12 | trimming twice is trimming once |
| Text.Split | apps/web/app/profile/page.tsx:83 | at least one piece, none containing the separator; the first piece runs from the start to the first occurrence or to the end |
| Text.SplitJoin | apps/web/app/profile/page.tsx:83 | joining the pieces of a split gives back the string |
| Text.DecimalRoundTrip | apps/web/components/note-card.tsx:103 | the decimal rendering reads back as the number |
| Text.PadStart | apps/web/components/note-card.tsx:103 | the width or the original length, whichever is larger; the original is a suffix and the padding is the fill character |
| NoteCard.AddImage | apps/web/components/note-card.tsx:138-147 | the old list is kept as a prefix. The file is appended exactly when one was chosen and fewer than five are attached, so at most five are ever kept |
| NoteCard.RemoveImage | apps/web/components/note-card.tsx:149-151 | drops exactly the element at the index and keeps the order of the rest; an index out of range changes nothing |
| NoteCard.RemoveAddedImage | apps/web/components/note-card.tsx:138-151 | removing the image just added restores the list |
| NoteCard.Navigate | apps/web/components/note-card.tsx:186-202 | nothing without a selection or images; otherwise the step is +1 or -1 modulo the number of images |
| NoteCard.NavigateInverse | apps/web/components/note-card.tsx:186-202 | "prev" undoes "next" and the other way round |
| NoteCard.OpenImageViewer | apps/web/components/note-card.tsx:174-179 | in edit mode nothing changes; otherwise the viewer opens at the index |
| NoteCard.CloseImageViewer | apps/web/components/note-card.tsx:181-184 | closed with no selection |
| NoteCard.ViewerSession | apps/web/components/note-card.tsx:174-202 | opening at an index in range selects it, navigating keeps the selection in range, and after closing nothing is selected and navigation does nothing |
| NoteCard.ToggleFavoriteTwice | apps/web/components/note-card.tsx:157-159 | toggling twice restores the flag |
| NoteCard.FormatTime | apps/web/components/note-card.tsx:100-104 | two colon-separated digit fields: the whole minutes, at least two digits, and the remaining seconds, exactly two digits |
| NoteCard.FormatTimeRoundTrip | apps/web/components/note-card.tsx:100-104 | reading `minutes:seconds` back gives the original seconds |
| VoiceInput.Assemble | apps/web/components/input.tsx:185-194 | the trimmed title, the note and the image; audio exactly when chunks were recorded |
| VoiceInput.HandleSubmit | apps/web/components/input.tsx:179-207 | a blank title only sets the title error and logs nothing. Otherwise the assembled note is logged, not sent anywhere, and the composer is reset, with the timer zeroed if a recording was running |
| VoiceInput.HandleClose | apps/web/components/input.tsx:209-228 | the composer is reset: title, note, image, chunks and audio URL cleared, dialog closed, recording stopped, and the timer of a running recording zeroed |
| VoiceInput.SubmitThenMatchesClose | apps/web/components/input.tsx:199-228 | a successful submit leaves the same state as closing |
| VoiceInput.ToggleRecording | apps/web/components/input.tsx:230-237 | at the limit, starting is refused with the limit message and nothing else changes. Otherwise the dialog opens and recording flips; stopping also zeroes the timer |
| VoiceInput.StartThenStop | apps/web/components/input.tsx:230-237 | starting then stopping leaves the dialog open and the timer at 0, and changes nothing else |
| VoiceInput.TimerTick | apps/web/components/input.tsx:148-166 | with a recording running, a tick below the limit adds one second; at the limit the recording stops and the timer is zeroed. Without a recording nothing changes |
| VoiceInput.HandlersKeepTimerSettled | apps/web/components/input.tsx:148-237 | the timer stays within 0 to 60 and is 0 whenever nothing is recorded, from the initial state through every handler and tick |
| VoiceInput.LimitRefusalUnreachable | apps/web/components/input.tsx:148-237 | in a settled state, toggling while stopped always starts a recording, so the "Recording limit reached" refusal is never shown |
| VoiceInput.Tick | apps/web/components/input.tsx:150-157 | below 60 it counts up; at 60 it resets to 0 and toggles recording |
| VoiceInput.TicksStayInRange | apps/web/components/input.tsx:150-157 | the counter stays within 0 to 60 |
| VoiceInput.TicksCountUp | apps/web/components/input.tsx:150-157 | up to the limit, n ticks add n |
| VoiceInput.LimitWraps | apps/web/components/input.tsx:150-157 | the 61st tick from 0 wraps to 0 and toggles recording |
| VoiceInput.FinalsAppend | apps/web/components/input.tsx:97-102 | the final transcripts of a concatenation are the concatenation of each part's |
| VoiceInput.FinalsEmpty | apps/web/components/input.tsx:97-104 | the transcript is empty exactly when every final result has an empty transcript |
| VoiceInput.FinalTranscript | apps/web/components/input.tsx:96-102 | the loop collects the final transcripts from `resultIndex` on, in order |
| VoiceInput.AppendTranscript | apps/web/components/input.tsx:104-106 | an empty transcript leaves the note; otherwise the note, a space and the transcript |
| VoiceInput.OnResult | apps/web/components/input.tsx:95-107 | the note grows by " " + the final transcripts exactly when there are any |
| VoiceInput.HandleImageChange | apps/web/components/input.tsx:239-245 | an image is selected exactly when a file of type `image/...` was picked; otherwise nothing changes |
| VoiceInput.RemoveImage | apps/web/components/input.tsx:247-252 | clears only the selected image |
| VoiceInput.PickThenRemove | apps/web/components/input.tsx:239-252 | a pick that is not an image keeps the selection, and removing after any pick clears the selection and nothing else |
| VoiceInput.OnDataAvailable | apps/web/components/input.tsx:125-129 | a chunk is appended exactly when it is non-empty |
| VoiceInput.OnDataAvailableKeepsChunksNonEmpty | apps/web/components/input.tsx:125-129 | the recorded chunks stay non-empty |
| TimeAgo.UnitsDecreasing | apps/web/utils/formatDateAndTime.ts:15-22 | the unit table is strictly decreasing and ends with the minute |
| TimeAgo.FirstMatch | apps/web/utils/formatDateAndTime.ts:24-29 | the first unit from `k` that fits at least once, with no earlier unit fitting |
| TimeAgo.Classify | apps/web/utils/formatDateAndTime.ts:6-32 | "just now" exactly under 60 seconds. Otherwise the count is the number of whole units in the difference, and no larger unit fits once |
| TimeAgo.FallbackUnreachable | apps/web/utils/formatDateAndTime.ts:31 | from 60 seconds on some unit matches, so the final "just now" is never reached |
| TimeAgo.BelowNextUnit | apps/web/utils/formatDateAndTime.ts:24-29 | below the year, the difference is under the next larger unit |
| TimeAgo.Render | apps/web/utils/formatDateAndTime.ts:11-31 | "just now", or three words: the count in decimal, the unit's name with an `s` exactly when the count is above one, and "ago" |
| TimeAgo.TimeAgoText | apps/web/utils/formatDateAndTime.ts:6-32 | "just now" exactly under a minute. From a minute on, the rendering of the classification: the count is the difference divided by the chosen unit, at least one |
| TimeAgo.PluralExactlyAboveOne | apps/web/utils/formatDateAndTime.ts:27 | the unit takes an `s` exactly when the count is above one |
| Base64File.Payload | apps/web/utils/base64ToFile.ts:6-11 | a payload is non-empty and contains no comma |
| Base64File.PayloadNeedsComma | apps/web/utils/base64ToFile.ts:6-11 | a string without a comma has no payload |
| Base64File.PayloadAfterFirstComma | apps/web/utils/base64ToFile.ts:6-7 | the payload is the text after the first comma up to the next comma; it is missing exactly when that text is empty |
| Base64File.DataUrlPayload | apps/web/utils/base64ToFile.ts:6-7 | the payload of `data:<type>;base64,<data>` is `<data>` |
| Base64File.SliceBytes | apps/web/utils/base64ToFile.ts:19-22 | the bytes of a slice are its character codes, one per character |
| Base64File.ChunkBytes | apps/web/utils/base64ToFile.ts:16-25 | ceil(n/1024) chunks, each non-empty and at most 1024, all but the last full; concatenated they are the bytes of the whole string |
| Base64File.Base64ToFile | apps/web/utils/base64ToFile.ts:1-29 | throws "Invalid base64 string format" exactly when there is no payload. A decode failure propagates. A file exactly when the payload decodes, with the given name and type and the decoded string's bytes |
| Base64File.BytesAreCharCodes | apps/web/utils/base64ToFile.ts:19-21 | each byte is the character code at its position |
| ProfilePage.Take2 | apps/web/app/profile/page.tsx:87 | the first two characters, or the whole string when it is shorter |
| ProfilePage.GetInitials | apps/web/app/profile/page.tsx:81-88 | at most two characters |
| ProfilePage.FirstCharsAreWordStarts | apps/web/app/profile/page.tsx:82-85 | the first characters of the pieces of a split on " " are exactly the characters that start a word |
| ProfilePage.InitialsAreWordStarts | apps/web/app/profile/page.tsx:81-88 | the initials are the first two word starts, upper-cased |
| ProfilePage.TwoWordInitials | apps/web/app/profile/page.tsx:81-88 | a two-word name gives its two capitals |
| ProfilePage.UpdateDiff | apps/web/app/profile/page.tsx:90-95 | a name or email is sent exactly when it differs from the user's. The password key is sent exactly when the form's password is not the placeholder, carrying the form's value, `undefined` included |
| ProfilePage.DiffReachesForm | apps/web/app/profile/page.tsx:90-95 | applying the diff makes the user equal the form, except that a placeholder or missing form password keeps the user's password |
| ProfilePage.HandleUpdate | apps/web/app/profile/page.tsx:90-107 | the "No changes" alert exactly when name and email are unchanged and the password is the placeholder; otherwise a non-empty diff is sent |
| ProfilePage.UneditedDefaultSendsNothing | apps/web/app/profile/page.tsx:44-107 | before the query returns, submitting the unedited form shows the alert |
| ProfilePage.StaleFormSendsDefaults | apps/web/app/profile/page.tsx:44-107 | the form is initialised before the user loads, so an unedited submit afterwards sends the default name over the loaded one |
| ProfilePage.LoadedUserFormAlwaysSends | apps/web/app/profile/page.tsx:90-107 | a form equal to a loaded user without password still sends a request, holding only an undefined password, and applying it changes nothing |
| MainLayout.GetInitials | apps/web/components/main-lauout.tsx:47-54 | the first two word starts upper-cased, at most two characters |
| MainLayout.SameAsProfileInitials | apps/web/components/main-lauout.tsx:47-54 | the layout's copy agrees with the profile page's on every name |
| MainLayout.AvatarInitials | apps/web/components/main-lauout.tsx:98 | nothing while the user is undefined, otherwise the user's initials |
| HomePage.SortKey | apps/web/app/home/page.tsx:74-81 | the parsed date, else the parsed timestamps, else 0 |
| HomePage.FilterNotes | apps/web/app/home/page.tsx:66-70 | a subsequence holding exactly the notes whose title or content contains the query, ignoring ASCII case, each as often as in the input |
| HomePage.EmptyQueryKeepsAll | apps/web/app/home/page.tsx:66-70 | an empty query keeps every note in order |
| HomePage.Toggle | apps/web/app/home/page.tsx:102-104 | the toggle always changes the order |
| HomePage.ToggleTwice | apps/web/app/home/page.tsx:102-104 | toggling twice restores the order |
| HomePage.SortBy | apps/web/app/home/page.tsx:73-83 | a permutation sorted by rank |
| HomePage.SortByStable | apps/web/app/home/page.tsx:73-83 | the sort is stable: for every rank, the elements of that rank come out in their input order |
| HomePage.SortNotes | apps/web/app/home/page.tsx:73-83 | a permutation of the notes, with keys ascending for "asc" and descending for "desc" |
| HomePage.SortedIsUnchanged | apps/web/app/home/page.tsx:73-83 | a list already in rank order comes back unchanged, equal ranks included |
| HomePage.EqualKeysKeepOrder | apps/web/app/home/page.tsx:73-83 | notes whose keys are all equal keep their order in either direction |
| HomePage.SortNotesStable | apps/web/app/home/page.tsx:73-83 | for every key, the notes with that key keep their relative input order, in either direction |
| HomePage.View | apps/web/app/home/page.tsx:32-83 | each page exactly in its case, in the order of the early returns: sign-in prompt when unauthenticated, then loading, then the error page, then the empty state when there are no notes, otherwise a grid. The grid's cards are the matching notes sorted by key, ascending or descending as chosen |
| HomePage.NoMatchesIsEmptyGrid | apps/web/app/home/page.tsx:57-70 | a search matching nothing shows an empty grid, not the empty state |
| AuthContext.Mount | apps/web/contexts/AuthContext.tsx:26 | starts unauthenticated |
| AuthContext.CheckAuthStatus | apps/web/contexts/AuthContext.tsx:30-35 | authenticated exactly when a non-empty token is stored |
| AuthContext.Login | apps/web/contexts/AuthContext.tsx:50-54 | stores the token, sets the flag, goes to /home |
| AuthContext.Logout | apps/web/contexts/AuthContext.tsx:56-60 | removes the token, clears the flag, goes to /login |
| AuthContext.LoginThenLogout | apps/web/contexts/AuthContext.tsx:50-60 | after logout no token is stored and the check finds no session |
| AuthContext.CheckAfterLogin | apps/web/contexts/AuthContext.tsx:30-54 | a check after login agrees with the flag exactly when the token is non-empty |
| AuthContext.CheckIdempotent | apps/web/contexts/AuthContext.tsx:30-35 | checking twice is checking once |

## Left out

- The user model file (password hashing in a save hook, `comparePassword`, the unique index on email) is not part of this model. Passwords are stored as given, and the password check is a parameter.
- `jwt.sign` and `jwt.verify` are parameters. Token expiry, the secret and a missing secret are not modelled.
- Database and storage exceptions are not modelled: login's 500 "Error logging in", the middleware's 500, the 500 catch-alls of the `/me` routes, and the notes list's 500.
- AuthController.Signup: the 500 when the fresh id is already taken carries "Internal Server Error", not the database's own error message.
- `User.findOne({ email: undefined })` on a login body without an email is modelled as a lookup of an email that no user has.
- NoteRoutes.CreateNote: a multer limit violation is modelled as a 500 carrying multer's message, with no upload made. In the app, Express's default error handler answers, and multer's exact error codes and their order are not modelled.
- NoteRoutes.UploadImagesAndSave: a schema rejection is answered with the message "Note validation failed", not Mongoose's full message listing every field.
- NoteRoutes.SaveNote, and with it NoteRoutes.UploadImagesAndSave and NoteRoutes.CreateNote: the note `timestamp` field is not modelled. The handler passes `req.body.timestamp` to the schema, which types it as a date, so a value that does not cast to a date fails the save with a 500 that the model never produces; "created exactly when the fields validate" holds only for requests whose `timestamp` is absent or a valid date.
- `createdAt`/`updatedAt` and the note index are not modelled. Neither are the update, delete and favorite note endpoints or the upload controller and middleware, which the routes do not use.
- HomePage.SortNotes: `new Date(..).getTime()` is a parameter, so a NaN date, and the inconsistent comparator it gives, is not modelled.
- NoteRoutes.ListNotes: `Note.find` has no sort, and MongoDB returns documents in an unspecified order. The model lists them in the store's insertion order, which is one possible answer.
- NoteRoutes.CreatedNoteIsListed: "after the earlier notes" refers to the model's insertion order, not an order the database promises.
- UserRoutes.UpdateMe: an email already used by another user is accepted. The unique index that rejects it belongs to the user model, which is not part of this model.
- Case mapping is ASCII only. String lengths count characters, not UTF-16 code units.
- TimeAgo.Classify takes the whole number of seconds as input. Date parsing and the clock are outside the model.
- NoteCard.FormatTime takes whole seconds. The fractional `currentTime` of the audio element and the progress bar are not modelled.
- NoteCard.AddImage appends the reader's result at once. The `FileReader` callback runs asynchronously, so several pending reads can together exceed five images in the app; that race is not modelled.
- VoiceInput: `MediaRecorder`, `SpeechRecognition`, the microphone-error and recognition-error handlers, `setInterval` and object URLs are effects outside the model. The interval's `toggleRecording` was created while recording, so it always stops the recording; VoiceInput.TimerTick models it that way and does not model a toggle seeing other stale fields.
- Base64File.Base64ToFile: `atob`'s exception is the `DecodeFailed` result. `Blob` and `File` are the list of byte arrays they are built from.
- Rendering, styling, routing components, the editor, the sparkles and the hero are not modelled.
