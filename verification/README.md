# TINDERPET swipe, match and session model

A Dafny model of the logic at the heart of TINDERPET, a matching app for pets.
It has three parts.

**Backend swipe and match rules.**
The tables are pets, extra pet images, likes, passes, matches and messages.
The request handlers are pure transitions from a database to a database plus a status and a body:
- `discover_pets`, `create_like` and `create_pass`;
- `PetViewSet.create` and `PetViewSet.set_active`;
- `list_matches`, `list_messages`, `create_message` and `mark_messages_read`.

The model also covers:
- the serializer routines that carry logic: pet creation with its extra images, a like's `is_match` and a match's `last_message`;
- the admin site's computed columns.

A ghost invariant, `Models.Valid`, states what the tables' constraints guarantee:
- keys are fresh and foreign keys resolve;
- the `unique_together` pairs are unique;
- a match row exists exactly for mutually liked pairs, lower id first;
- messages are in creation order.

Every handler that writes is proved to preserve it.

**Client session pipeline.**
The token store is an access token and a refresh token.
The shared API client attaches the bearer token. On a first 401 it refreshes once with a bare client and resends once.
The session controller covers `login`, `register`, `logout`, `refreshToken` and the start-up `loadUser`.
The server is a pure function from the request on the wire to its reply.
Navigation is an emitted value.

**Client page helpers.**
- The discover page's deck cursor: like and pass guards, advance by one, remaining count, active-pet choice.
- The "my pet / other pet" choice on the matches and messages pages.
- The register page's submit handler.

Files:
- `base.dfy`: `Option`, `Min` and `Max`.
- `models.dfy`: the tables and the invariant.
- `serializers.dfy`
- `views.dfy`
- `admin.dfy`
- `api.dfy`: the token store and the interceptors.
- `auth.dfy`: the session controller.
- `discover_page.dfy`
- `pet_pages.dfy`: the matches and messages pages.
- `register_page.dfy`

Three behaviours of the code are easy to miss:
- **Tokens and user are not always present together.**
  - `login` stores both tokens before it fetches the user.
  - If that fetch fails with anything but a 401, the tokens stay and the user stays empty (`Auth.LoginKeepsTokensWithoutUser`).
  - At start-up, with an access token but no refresh token, a failed fetch also leaves the token and no user.
- **The password confirmation is checked on the register page, not in `register`.**
  - The register page compares the two passwords (`RegisterPage.HandleSubmit`).
  - `register` sends the confirmation to the server unchecked.
- **A failed login can change state.**
  - The login post goes through the shared client, so a 401 with a stale refresh token still stored makes the interceptor try a refresh.
  - If that refresh fails, both tokens are removed and the page goes to `/login`.
  - Without a stored refresh token, or on any other error, the session is unchanged (`Auth.LoginFailureKeepsSession`).

## Model

| member | source | states |
|---|---|---|
| Models.ParsePetType | BACKEND/api/models.py:7-13 | Exactly the five codes dog, cat, bird, rabbit and other are accepted. Each is read as the choice whose stored code it is, and every code fits the 20-character column. |
| Models.ParseGender | BACKEND/api/models.py:15-18 | Exactly male and female are accepted. Each is read as the choice whose code it is, within the 10-character column. |
| Models.ChoicesRoundTrip | BACKEND/api/models.py:7-25 | Reading back the stored code of any pet type or gender gives that same choice. |
| Models.MessagesOf | BACKEND/api/models.py:81-88 | The messages of one match are exactly the table's messages with that match id, never more than the table holds. |
| Serializers.TrimSpec | BACKEND/api/serializers.py:28-41 | The text fields are stored with leading and trailing white space stripped: the result is empty exactly when the text is all white space, and otherwise it is the text between its first and last non-space characters. |
| Serializers.TrimIdempotent | BACKEND/api/serializers.py:28-41 | Stripping a stripped text changes nothing. |
| Serializers.PetCreate | BACKEND/api/serializers.py:43-51 | Creating a pet inserts it under a fresh id, owned by the requester, with the submitted fields stripped of surrounding white space, and active by default. One image row per extra URL is appended, in list order, or none when the list is absent. Nothing else changes. |
| Serializers.AddImagesRows | BACKEND/api/serializers.py:48-49 | The image rows already stored are kept, and the new rows follow them in list order: each belongs to the new pet, holds its stripped URL, and has an upload stamp one later than the row before. |
| Serializers.AddImagesRoundTrip | BACKEND/api/serializers.py:48-49 | For a pet with no image rows yet, appending its URLs and reading its images back gives the stripped URLs in insertion order. |
| Serializers.PetCreateImagesRoundTrip | BACKEND/api/serializers.py:44-49 | Reading back the images of a new pet gives exactly the submitted URL list in insertion order, each stripped, or nothing when no list was sent. |
| Serializers.SerializeLike | BACKEND/api/serializers.py:63-64 | A serialized like carries the like's pets, and its is_match holds exactly when the reverse like exists. On a consistent database that is exactly when the pair has a match row, lower id first. |
| Serializers.MessagesOfChronological | BACKEND/api/models.py:84-88 | The messages of one match stay in creation order. |
| Serializers.GetLastMessageIsNewest | BACKEND/api/serializers.py:76-85 | The summary is None exactly when the match has no message. Otherwise, with the match's messages in creation order (which `Serializers.MessagesOfChronological` derives from the table), it summarises a message of that match that no other message of the match postdates. |
| Views.CreatePet | BACKEND/api/views.py:32-40 | Invalid fields give 400 and change nothing. Valid fields give 201 with the new id of an active pet owned by the requester, and the database is exactly the one the pet serializer's create produces. |
| Views.BlankTextRejected | BACKEND/api/views.py:32-40 | A name, breed or bio made only of white space is rejected with 400, because it is blank once stripped. |
| Views.CreatePetPreservesValid | BACKEND/api/views.py:32-40 | Creating a pet keeps every table invariant, including that every image row belongs to an existing pet. |
| Views.SetActive | BACKEND/api/views.py:46-59 | A pet outside the requester's own gives 404. Otherwise exactly the chosen pet is active among the requester's pets, other owners' pets are untouched, and only the active flags change. |
| Views.SetActiveLeavesOneActive | BACKEND/api/views.py:51-56 | Afterwards a pet of the requester is active if and only if it is the chosen pet. |
| Views.SetActivePreservesValid | BACKEND/api/views.py:51-56 | Switching the active pet keeps every table invariant. |
| Views.EligibleIffDiscoverable | BACKEND/api/views.py:95-116 | The query's pool is exactly the pets that meet all of these: active; same breed and type as the current pet; not the current pet; not the requester's; not already liked, passed on or matched in either order. |
| Views.DiscoverPets | BACKEND/api/views.py:79-119 | A missing pet_id gives 400. A pet not owned by the requester gives 404. Otherwise the result is min(20, pool size) distinct pets, each meeting the discover conditions. |
| Views.CheckPets | BACKEND/api/views.py:129-145 | A missing or zero id gives 400. A from_pet not owned by the requester, or an unknown to_pet, gives 404. Otherwise both ids are accepted. |
| Views.GetOrCreateMatch | BACKEND/api/views.py:161-166 | Afterwards the pair has a match row. An existing row leaves the database as it was; otherwise exactly one row is added under a fresh id. |
| Views.CreateLike | BACKEND/api/views.py:125-174 | Rejected ids and duplicate likes give their errors and change nothing. Accepted ids for a pair not yet liked always succeed. A success adds exactly one like row under a fresh id and keeps the old rows. is_match holds exactly when the reverse like exists. Without a match the match table is unchanged; with one, old matches are kept and at most the one new row is added. When it holds, the match (lower id first) is returned and present. |
| Views.CreateLikePreservesValid | BACKEND/api/views.py:155-166 | After any like request, each like and match pair appears at most once, and a match row exists exactly for mutually liked pairs. |
| Views.CreateLikeMatchIffReverse | BACKEND/api/views.py:158-166 | After a like, the lower-id-first match exists exactly when the reverse like exists, and a higher-id-first row never exists for two distinct pets. |
| Views.SelfLikeMakesSelfMatch | BACKEND/api/views.py:155-166 | A pet that likes itself is its own reverse like, so it is immediately matched with itself. |
| Views.CreatePass | BACKEND/api/views.py:180-206 | Rejected ids give their errors and change nothing. Accepted ids always give 201 with the pass. An existing pass leaves the database unchanged; otherwise the one new row `Pass(from, to)` is stored under the next id, the id counter moves on by one and nothing else changes. |
| Views.CreatePassIdempotent | BACKEND/api/views.py:203 | Passing the same pair again returns the same outcome and changes nothing, and the pair has exactly one pass row. |
| Views.CreatePassPreservesValid | BACKEND/api/views.py:202-203 | Passing keeps every table invariant, including one pass per pair. |
| Views.ListMatches | BACKEND/api/views.py:211-222 | The answer is 200 and holds exactly the matches in which one of the requester's pets takes part. The database is unchanged. |
| Views.NewMatchListedForBothOwners | BACKEND/api/views.py:215-219 | A match created by a like is listed for the liker and for the owner of the liked pet. |
| Views.ListMessages | BACKEND/api/views.py:227-248 | An unknown match gives 404. A requester owning neither pet gives 403. Otherwise the answer succeeds and holds exactly the match's messages, and nothing changes. |
| Views.ListedIffReadable | BACKEND/api/views.py:215-248 | A match is in the requester's match list exactly when the requester may read its messages. |
| Views.ListMessagesChronological | BACKEND/api/models.py:87-88 | Listed messages come in strictly increasing creation time. |
| Views.CreateMessage | BACKEND/api/views.py:253-296 | The checks run in this order: unknown match 404; missing sender or content 400; sender not the requester's 404; sender not in the match 403. Each failure changes nothing. A known match with a sender and content, where the sender is the requester's and in the match, always succeeds. A success appends one unread message stamped with the current time. |
| Views.CreateMessageAppendsToMatch | BACKEND/api/views.py:289-293 | A sent message extends its own match's conversation by exactly that message and leaves every other conversation unchanged. |
| Views.CreateMessagePreservesValid | BACKEND/api/views.py:289-293 | Sending a message keeps every table invariant, including creation order. |
| Views.OtherSide | BACKEND/api/views.py:313-316 | The other side is pet2 when the requester owns pet1, and pet1 otherwise. |
| Views.MarkMessagesRead | BACKEND/api/views.py:300-324 | An unknown match gives 404. Otherwise every message the other side sent in this match is read afterwards. Every other message is untouched, and no field but is_read changes. |
| Views.MarkMessagesReadIdempotent | BACKEND/api/views.py:318-322 | Marking a conversation read a second time changes nothing. |
| Views.MarkMessagesReadByStranger | BACKEND/api/views.py:304-316 | There is no participation check, so a requester owning neither pet gets 200 and pet1's messages are marked read. |
| Views.MarkMessagesReadPreservesValid | BACKEND/api/views.py:318-322 | Marking messages read keeps every table invariant. |
| Admin.ContentPreview | BACKEND/api/admin.py:67-68 | A text of at most 50 characters is shown unchanged. A longer one is shown as its first 50 characters plus "...". The preview is never longer than 53 and always starts with the first min(50, length) characters. |
| Admin.ContentPreviewIdempotent | BACKEND/api/admin.py:68 | Previewing a preview gives the same preview. |
| Admin.AdminIsMatch | BACKEND/api/admin.py:42-43 | The like list's tick is set exactly when some like goes the other way between the same two pets. |
| Admin.AdminIsMatchAgrees | BACKEND/api/models.py:61-66 | The admin tick equals the API's is_match. On a consistent database it shows whether the pair has a match row. |
| Admin.MessageCount | BACKEND/api/admin.py:55-56 | The count never exceeds the message table and is zero exactly when no message belongs to the match. |
| Admin.MessageCountIsSlotCount | BACKEND/api/admin.py:55-56 | The count equals the number of table positions holding a message of the match. It is zero exactly when the match has no last message. |
| Api.Authorize | FRONTEND/lib/api.ts:13-26 | A non-empty stored access token goes out as "Bearer " plus the token. Otherwise the request is unchanged. |
| Api.SendAttachesBearer | FRONTEND/lib/api.ts:13-21 | A request carries a bearer header exactly when a non-empty access token is stored, and it carries that token unchanged. |
| Api.Send | FRONTEND/lib/api.ts:29-60 | A call is one dispatch, or a dispatch and a refresh post, or a dispatch, a refresh post and one resend. A request already marked as retried never refreshes. The store either keeps its refresh token or, only on a rejection that navigates to /login, loses both tokens. |
| Api.SendRefreshesAtMostOnce | FRONTEND/lib/api.ts:34-35 | Each request makes at most one refresh and two dispatches, and none beyond the first dispatch once it is marked as retried. |
| Api.SendPassesThrough | FRONTEND/lib/api.ts:29-34 | Successes and non-401 errors settle with the server's reply after one dispatch, with the store unchanged and no navigation. |
| Api.SendUnauthorizedWithoutRefresh | FRONTEND/lib/api.ts:34-58 | A 401 on a retried request, or with no refresh token stored, is rejected with the original error. There is no refresh and the store is unchanged. |
| Api.SendRefreshSucceeds | FRONTEND/lib/api.ts:41-47 | After a successful refresh the new access token replaces the old one and the refresh token stays. The request is sent exactly once more with the new token, and its reply settles the call. |
| Api.SendRefreshFails | FRONTEND/lib/api.ts:49-53 | After a failed refresh, even a 401, both tokens are removed and the page goes to /login. The call rejects with the refresh's error, after no further call. |
| Auth.Login | FRONTEND/lib/auth-context.tsx:64-77 | The login post is the first call. When the login post and the user fetch both resolve, the user is exactly the record /auth/me/ returned, the store is the one the fetch left, and the last navigation is the dashboard. On failure the user is unchanged and the dashboard is never visited. |
| Auth.LoginFailureKeepsSession | FRONTEND/lib/auth-context.tsx:64-66 | A rejected login post, without a stale refresh token to try on a 401, leaves the session unchanged, with one call and no navigation. |
| Auth.LoginSuccess | FRONTEND/lib/auth-context.tsx:64-77 | A successful login keeps the refresh token the server issued. The user is fetched with the new access token right after the login post, and becomes exactly that fetch's reply. The operation ends on the dashboard. |
| Auth.LoginKeepsTokensWithoutUser | FRONTEND/lib/auth-context.tsx:68-74 | If the credentials are accepted but the user fetch fails with a non-401 error, the operation rejects with both tokens stored and no user. |
| Auth.Register | FRONTEND/lib/auth-context.tsx:79-89 | The register post is the first call. A resolved registration has a user. |
| Auth.RegisterLogsInOnlyAfterSuccess | FRONTEND/lib/auth-context.tsx:79-89 | A failed register post makes no login call and leaves the user unchanged. A successful one is followed by exactly the login with the same email and password. |
| Auth.Logout | FRONTEND/lib/auth-context.tsx:91-98 | Both tokens and the user are removed and the page goes to /login, with no network call. |
| Auth.LogoutIdempotent | FRONTEND/lib/auth-context.tsx:91-98 | Logging out twice is the same as logging out once. |
| Auth.RefreshToken | FRONTEND/lib/auth-context.tsx:100-119 | The operation never rejects. With no refresh token it is a no-op. Otherwise it ends in one of two ways: a user with the same refresh token and an access token; or logged out with no tokens, no user and a final navigation to /login. A rejected refresh post logs out; after a resolved one, a rejected user fetch logs out and a resolved one stores the fetched user. |
| Auth.RefreshTokenFailureLogsOut | FRONTEND/lib/auth-context.tsx:100-119 | With a refresh token, the renewal ends signed in exactly when both the refresh post and the user fetch resolve. Any other outcome logs out: no tokens and a final navigation to /login. |
| Auth.RefreshTokenStoresNewAccess | FRONTEND/lib/auth-context.tsx:107-114 | On a plain success only the access token changes, to the one in the refresh reply, and the user is fetched again. |
| Auth.LoadUser | FRONTEND/lib/auth-context.tsx:30-50 | Loading ends on every path. With no access token nothing else changes and there is no call. Otherwise the first call is the user fetch, and when it resolves the user is exactly the record it returned. |
| Auth.StartupWithoutToken | FRONTEND/lib/auth-context.tsx:37-47 | A fresh page with no access token ends loading with no user and no call. |
| Auth.LoadUserFallsBackToRefresh | FRONTEND/lib/auth-context.tsx:39-45 | A failed user fetch at start-up is followed by exactly the renewal that refreshToken performs. |
| DiscoverPage.RemainingCount | FRONTEND/app/discover/page.tsx:251 | The count under the card is the number of pets still to be offered: each of n successful passes lowers it by one, and a pet is still shown exactly while fewer passes than the count have been made. |
| DiscoverPage.FirstActive | FRONTEND/app/discover/page.tsx:65 | The chosen pet is the first active pet of the list, and there is none exactly when no pet is active. |
| DiscoverPage.FetchActivePetAsWritten | FRONTEND/app/discover/page.tsx:61-94 | A failed pet list ends loading. No active pet redirects to the dashboard and requests no deck. The cursor is never moved by a reload. |
| DiscoverPage.ReloadKeepsStaleCursor | FRONTEND/app/discover/page.tsx:85-94 | Counterexample: a reload after two swipes, with a fresh deck of one pet, leaves the cursor past the deck. The fresh pet is never offered and the no-more-pets view is shown; the model's remaining count is -1. |
| DiscoverPage.FetchActivePet | FRONTEND/app/discover/page.tsx:61-94 | The active pet is the list's first active pet, and its deck is requested. With no active pet the page redirects and requests nothing. After a loaded deck the cursor is at its start, the remaining count equals the deck's length, and more pets show exactly when the deck is non-empty. |
| DiscoverPage.HandleLike | FRONTEND/app/discover/page.tsx:96-123 | With no active pet, an action in flight or the end of the deck reached, nothing happens. Otherwise the like is posted for the pet under the cursor. Success advances the cursor by one, failure leaves it, and the action ends either way. The match dialog opens exactly when a possible like gets a reply with a match. |
| DiscoverPage.HandlePass | FRONTEND/app/discover/page.tsx:125-147 | The same guard and cursor rule as a like, and the match dialog is never touched. |
| DiscoverPage.SwipesKeepCursorInDeck | FRONTEND/app/discover/page.tsx:96-147 | Likes and passes keep the cursor within the deck. Each success lowers the remaining count by one. At the end of the deck both do nothing. |
| DiscoverPage.SwipesWalkTheDeck | FRONTEND/app/discover/page.tsx:125-137 | While the deck lasts, n successful passes move the cursor n pets on, with the deck, the active pet and the idle action state unchanged. |
| MatchesPage.GetMyPet | FRONTEND/app/matches/page.tsx:74-77 | The user's pet is the nested pet1 when one of the user's pets has its id, and the nested pet2 otherwise. |
| MatchesPage.GetOtherPet | FRONTEND/app/matches/page.tsx:69-72 | The other pet is the nested pet2 when one of the user's pets has the nested pet1's id, and the nested pet1 otherwise. |
| MatchesPage.MyAndOtherSplitTheMatch | FRONTEND/app/matches/page.tsx:69-77 | The two choices are the match's two pets, one each, so they differ when the pets differ. A user owning exactly one of the pets sees that one as theirs. A user owning both sees pet1. |
| MessagesPage.GetMyPetAsWritten | FRONTEND/app/messages/page.tsx:74-77 | The match list sends pet1 as a bare id, whose id property is undefined and never found, so the user's pet is always the bare id of pet2. |
| MessagesPage.GetOtherPetAsWritten | FRONTEND/app/messages/page.tsx:69-72 | For the same reason the other pet is always the bare id of pet1. |
| MessagesPage.ListIgnoresOwnership | FRONTEND/app/messages/page.tsx:69-77 | As written, neither value behind a card has a name. For a user owning pet1, the value behind the other side is their own pet's id, while the matches page shows pet1 as theirs. |
| MessagesPage.PagesDisagree | FRONTEND/app/messages/page.tsx:69-77 | Counterexample: a user owning Rex, matched with Luna, sees Rex as theirs on the matches page. On the conversations list the value behind the other side is Rex's bare id, which has no name. |
| MessagesPage.GetMyPet | FRONTEND/app/messages/page.tsx:74-77 | Corrected to read the nested pets, as the single conversation page does. The user's pet is always a pet with a name: the nested pet1 when one of the user's pets has its id, and the nested pet2 otherwise. |
| MessagesPage.GetOtherPet | FRONTEND/app/messages/page.tsx:69-72 | Corrected to read the nested pets. The other pet is always a pet with a name: the nested pet2 when one of the user's pets has the nested pet1's id, and the nested pet1 otherwise. |
| MessagesPage.SameRuleAsMatchesPage | FRONTEND/app/messages/page.tsx:69-77 | With the nested pets read, the conversations list picks the same pets as the matches page, one of each. A user owning pet1 sees it as theirs. |
| RegisterPage.ErrorText | FRONTEND/app/register/page.tsx:47 | The error text is never empty. It is the first e-mail error if there is one, else the first username error, else the generic message. |
| RegisterPage.HandleSubmit | FRONTEND/app/register/page.tsx:23-53 | Different passwords show the mismatch notice with no call and no state change. Equal passwords call register first and end with loading off, and the notice is an error exactly when register rejects. |
| RegisterPage.SubmitPostsTheForm | FRONTEND/app/register/page.tsx:38-47 | The register post carries the form's email, username, password and confirmation under its four field names. A failure shows the server's e-mail or username message, or the generic one. |

## Left out

- Authentication and permission classes are the framework's business: the requester arrives as a user id. Rate limiting is left out for the same reason.
- `PetViewSet` list, retrieve, update, destroy and `images` are left out: they are framework defaults or single queries.
- The routing table, the JWT endpoints, the sample-data and setup scripts, and the dashboard, login and landing pages are left out: they hold no rules of their own.
- Framework validation is reduced to white-space stripping, lengths and choices: URL syntax, integer parsing, the database's integer range on `age` and the exact bodies of framework errors (shown as an empty message) are not modelled. Non-numeric ids are not modelled either; the server answers them with an error of its own.
- Views.DiscoverPets: the database's random ordering is the `:|` choice of the model. The contract does not say that every selection is equally likely.
- Views.ListMatches: the result is a set of match ids; the `-created_at` ordering of matches, likes and passes is not modelled, nor the `-uploaded_at` read order of pet images (BACKEND/api/models.py:44): images are read back in insertion order. Only the creation order of messages is modelled.
- Timestamps are an integer clock that stamps pets, images and messages only, and grows with each of those inserts. The `created_at` of likes, passes and matches is dropped. Real times, and `updated_at`, are not modelled.
- The message table's 1000-character limit is not modelled: `create_message` does not validate it.
- The server is a pure function of the request on the wire, so two identical requests get the same reply. A server that answers differently over time is not modelled.
- Both clients read the same server, so the bare refresh client and the shared client differ only by the interceptors.
- Reply bodies are modelled as text fields and per-field message lists. A body that is not an object, which would make destructuring throw, is not modelled.
- The server-side rendering branches that test for a browser window are left out: the model is the browser case.
- The 50-minute timer is left out as real time: the environment calls `Auth.RefreshToken`, which is exactly what the timer does.
- Concurrency is out of scope: overlapping refreshes, parallel fetches, and a page reload that races an in-flight swipe.
- Rendering, toasts other than the register notice, and console logging are left out: they are presentation.

## Findings

| source | as written | input that shows it | evidently intended | confidence | as-written member | corrected member |
|---|---|---|---|---|---|---|
| FRONTEND/app/discover/page.tsx:85-94 | Loading a deck replaces the pet list but keeps the cursor. The page reloads whenever the user object changes, and the periodic token renewal replaces that object. | After two swipes through a deck of two, a reload returns a fresh deck of one pet with the cursor still at 2. The fresh pet is never offered: the page shows its no-more-pets view instead (page.tsx:182), and the count under the card is not rendered. The model's remaining count is -1. | The cursor goes back to the start of the freshly loaded deck, so every pet in it is offered. | medium, not executed | DiscoverPage.ReloadKeepsStaleCursor | DiscoverPage.FetchActivePet |
| FRONTEND/app/messages/page.tsx:69-77 | The conversations list reads `match.pet1.id`, but the match list sends `pet1` and `pet2` as bare ids; the nested pets are under `pet1_details` and `pet2_details`. The id lookup is undefined and never found, so the value behind the other side of every card is pet1's bare id. A number has no `main_image`, `name` or `breed`, so every card shows the placeholder image, no name, an empty breed badge and "Match con " with no name after it (messages/page.tsx:139-151). | A user owning Rex (id 1), matched with Luna (id 2): the matches page shows Luna as the match. The conversations card shows a placeholder and no names, and the value behind its other side is 1, the user's own Rex. | Read `pet1_details` and `pet2_details`, as the matches page and the single conversation page do. | high, not executed | MessagesPage.PagesDisagree | MessagesPage.GetMyPet |
