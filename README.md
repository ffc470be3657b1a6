# Session lifecycle and form logic of a marketing website, in Dafny

The project models the token-based authentication backend of the site and the small pieces of client logic
around it.

- **Session manager** (`AuthService`). It registers users and logs them in. It issues an access token
  (15 minutes) and a stored refresh token (7 days), rotates a refresh token on redemption, revokes it on
  logout, and looks users up by id. Module `Session` gives each operation as a transition on the two
  tables, users and refresh tokens. The result is either a value or a thrown error. Module `Service`
  holds the class `AuthService`, which performs the same steps in place on fields holding the tables.
  Each of its methods is proved equal to the matching transition, and each keeps the store invariant
  `Session.WellFormed`. Module `SessionProperties` proves what holds across calls: single use,
  revocation, indistinguishable failures and preservation of the invariant.
- **Token and hashing libraries** (`Jwt`, `Bcrypt`). Each library is a pair of functions passed in with
  the configuration, together with the one property the service relies on (`Jwt.Sound`, `Bcrypt.Sound`).
  No cryptographic strength is assumed.
- **Database** (`Store`). Each table is a sequence of rows. The model covers the queries the service
  issues (`findUnique`, `create`, `delete`, `deleteMany`) and the uniqueness the schema enforces.
- **Request hook and route handlers** (`Middleware`, `Routes`, `Http`). These cover the bearer-header
  check and the mapping of each service outcome to a status code and body.
- **Form validators** (`Validation`). These are the seven validators of the sign-up and sign-in
  forms. Each regular expression is written out as explicit character classes.
- **Typing effect and testimonial carousel** (`TypingAnimation`, `Testimonials`). These are the timer
  transitions of the two landing-page components, as classes whose methods update the component state.

## Behaviour the proofs bring out

- **Tokens are not unique.** `jsonwebtoken` signs deterministically, and `iat` counts whole seconds. So
  two refresh tokens issued to one user in the same second are the same string, and the store refuses
  the second row.
  - A second login in the same second fails with 500 `Login failed` (`SessionProperties.SameSecondLoginCollides`,
    `Routes.SameSecondLoginIs500`).
  - A refresh in the second its token was issued fails with 401 (`SessionProperties.RefreshInIssuingSecondFails`).
  - These are modelled as the code behaves. `generateRefreshToken` (`server/server/src/auth.service.ts:132-145`)
    adds nothing random to the token, yet `findUnique({ where: { token } })` (`:81-84`) looks rows up by
    it as a unique key. So logging in and refreshing at once succeeds only when the two calls fall in
    different seconds.
- **With one clock reading per call, the stored checks never decide a refresh.** Line 86 of
  `auth.service.ts` checks the row's owner and `expiresAt` as if they could refuse a token the signature
  check accepted. But the signed `exp` (issue second + 604800 s) always ends no later than the stored
  `expiresAt` (issue time + 604800000 ms). So, at one clock reading, once the signature check passes, the
  owner check and the stored-expiry check pass too (`SessionProperties.StoredChecksRedundant`). The stored
  check is also strict (`expiresAt < now`), while the token check is already closed at `expiresAt`. The
  original reads the clock twice, in `jwt.verify` (`:78`) and in `new Date()` (`:86`), with the awaited
  lookup in between; see "Left out".
- **A failed delete keeps the new row.** Rotation creates the new row before it deletes the old one. If
  the delete throws, for instance because a concurrent refresh already removed the row, the caller gets
  401 but the new row stays stored (`SessionProperties.FailedDeleteKeepsNewRow`).
- **Password composition is checked line by line.** `.` does not match line terminators. So
  `validatePassword` demands that a lowercase letter, an uppercase letter and a digit occur within one
  line. `Abcdefgh\n1` is rejected although the strength meter scores it 4 (green)
  (`Validation.ComposedAcrossLinesRejected`). Every password the validator accepts scores at least 4
  (`Validation.AcceptedPasswordIsStrong`).
- **Email is checked untrimmed.** `validateEmail` tests blankness on the trimmed input but matches the
  pattern on the untrimmed one. So surrounding white space makes a valid address invalid
  (`Validation.PaddedEmailInvalid`).

## Model

| member | source | states |
|---|---|---|
| Jwt.Claims | server/server/src/auth.service.ts:129 | the signed payload carries the user id, `iat` is the clock in whole seconds, and `exp = iat + lifetime` |
| Jwt.SignInjective | server/server/src/auth.service.ts:133 | signing is deterministic and injective: equal tokens under one secret mean equal payloads |
| Jwt.IssuedTokenVerifies | server/server/src/auth.service.ts:78 | an issued token verifies, giving back its user id, exactly while the clock is before `exp * 1000` ms, where `exp` is the issue second plus the lifetime; it never verifies `lifetime` seconds after issue |
| Store.FindUserByEmail | server/server/src/auth.service.ts:12-14 | finds a user with that email, or reports none exists (both directions) |
| Store.FindUserById | server/server/src/auth.service.ts:116-125 | finds a user with that id, or reports none exists |
| Store.FindRowByToken | server/server/src/auth.service.ts:81-84 | finds a refresh row holding that token, or reports none exists |
| Store.DeleteRowById | server/server/src/auth.service.ts:95-97 | keeps exactly the rows with another id |
| Store.DeleteRowsByToken | server/server/src/auth.service.ts:110-112 | keeps exactly the rows with another token |
| Store.DeleteAbsentToken | server/server/src/auth.service.ts:110-112 | `deleteMany` on a token no row holds leaves the table unchanged |
| Store.DeleteRowsByTokenIdempotent | server/server/src/auth.service.ts:110-112 | `deleteMany` by token is idempotent |
| Store.DeleteAbsentId | server/server/src/auth.service.ts:95-97 | deleting an id no row holds leaves the table unchanged |
| Store.DeleteByIdIsDeleteByToken | server/server/src/auth.service.ts:95-97 | with unique tokens and ids, deleting the found row by id equals deleting by its token |
| Store.AppendRowConsistent | server/server/src/auth.service.ts:136-142 | storing a row with a fresh id, an unused token and an existing owner keeps the store consistent |
| Session.AccessToken | server/server/src/auth.service.ts:128-130 | the access token verifies under the access secret, with the user's id and a 15-minute `exp`, when issued, and no longer 15 minutes later |
| Session.IssueRefreshToken | server/server/src/auth.service.ts:132-145 | stores one row with the signed token and `expiresAt = now + 7 days` and returns the token; a duplicate token throws the unique violation and stores nothing |
| Session.Register | server/server/src/auth.service.ts:10-39 | a taken email throws `Email already exists` with no change; otherwise exactly one user is added with the hashed password, and the result shows id, email, name and createdAt only, plus the message |
| Session.Login | server/server/src/auth.service.ts:41-73 | an unknown email or a wrong password throws `Invalid credentials` and changes nothing; with a matching password, login throws the unique violation and changes nothing when the user's refresh token for this second is already stored, and succeeds otherwise; success adds one row for that user and returns its public fields, both tokens and `expires_in` 900 |
| Session.Refresh | server/server/src/auth.service.ts:75-107 | every failure throws `Invalid or expired refresh token`; a token that does not verify, that no row holds, whose row belongs to another user or has expired, or whose replacement is already stored changes nothing; when the delete fails the new row stays; success stores the replacement for the row's owner, deletes the redeemed row by id and returns the new pair with `expires_in` 900 |
| Session.Logout | server/server/src/auth.service.ts:109-113 | exactly the rows holding the token are removed; users are untouched |
| Session.GetUserById | server/server/src/auth.service.ts:115-126 | the public fields of the user with that id (never the password), or nothing exactly when no user has it |
| SessionProperties.IssuePreservesWellFormed | server/server/src/auth.service.ts:132-145 | issuing a token for a stored user keeps the store invariant |
| SessionProperties.RegisterPreservesWellFormed | server/server/src/auth.service.ts:10-39 | register keeps the store invariant |
| SessionProperties.LoginPreservesWellFormed | server/server/src/auth.service.ts:41-73 | login keeps the store invariant |
| SessionProperties.FewerRowsPreserveWellFormed | server/server/src/auth.service.ts:95-97 | removing rows keeps the store invariant |
| SessionProperties.RefreshPreservesWellFormed | server/server/src/auth.service.ts:75-107 | refresh keeps the store invariant, including when the delete fails |
| SessionProperties.LogoutPreservesWellFormed | server/server/src/auth.service.ts:109-113 | logout keeps the store invariant |
| SessionProperties.RegisterTwiceFails | server/server/src/auth.service.ts:12-18 | registering an email a second time throws `Email already exists` and changes nothing |
| SessionProperties.RegisteredUserIsFound | server/server/src/auth.service.ts:115-126 | a user just registered is found by id with its public fields |
| SessionProperties.RegisterThenLogin | server/server/src/auth.service.ts:41-73 | a user just registered can log in with the same password at any later time |
| SessionProperties.LoginSucceedsIff | server/server/src/auth.service.ts:41-73 | on a consistent store, login succeeds exactly when a user has the email, the password matches its hash, and that user's refresh token for this second is not stored yet |
| SessionProperties.LoginFailuresIndistinguishable | server/server/src/auth.service.ts:43-55 | an unknown email and a wrong password give the identical error, with no change |
| SessionProperties.SameSecondLoginCollides | server/server/src/auth.service.ts:59 | a second login of the same user in the same second throws the store's unique violation and stores nothing |
| SessionProperties.StoredChecksRedundant | server/server/src/auth.service.ts:86-88 | under the invariant, a verifying token's row has the token's subject as owner and has not expired |
| SessionProperties.ExpiredRowRejected | server/server/src/auth.service.ts:86-88 | at or after a row's `expiresAt` its token is refused, with no change |
| SessionProperties.RefreshSucceedsIff | server/server/src/auth.service.ts:75-107 | refresh succeeds exactly when the token verifies, a row holds it, the replacement token is unused and the delete succeeds |
| SessionProperties.RefreshRotates | server/server/src/auth.service.ts:91-103 | success removes the redeemed row, appends one new row for the redeemed row's owner, leaves other rows alone, and returns a new, different refresh token |
| SessionProperties.DeleteByIdAppend | server/server/src/auth.service.ts:92-97 | deleting the old row after appending the new one equals appending after deleting |
| SessionProperties.RefreshIsSingleUse | server/server/src/auth.service.ts:91-97 | a redeemed token is refused, with no change, after any sequence of registrations, logins, refreshes and logouts made at the redemption's clock or later |
| SessionProperties.RedeemedInLaterSecond | server/server/src/auth.service.ts:92 | a row whose replacement is not yet stored was issued in an earlier second than the redemption |
| SessionProperties.AbsentTokenStaysAbsent | server/server/src/auth.service.ts:132-145 | a refresh token no row holds is never stored again by calls made in a later second than it was signed in, since each call signs with its own `iat` |
| SessionProperties.FailedDeleteKeepsNewRow | server/server/src/auth.service.ts:92-106 | when the delete throws, the caller gets the generic error and the new row stays stored |
| SessionProperties.RefreshInIssuingSecondFails | server/server/src/auth.service.ts:92 | a token redeemed in the second it was issued is refused, with no change |
| SessionProperties.LogoutIdempotent | server/server/src/auth.service.ts:109-113 | logging out twice equals logging out once |
| SessionProperties.LogoutUnknownToken | server/server/src/auth.service.ts:109-113 | logging out an unknown token changes nothing |
| SessionProperties.LogoutRevokes | server/server/src/auth.service.ts:109-113 | after logout the token cannot be redeemed |
| Service.AuthService.constructor | server/server/src/auth.service.ts:147 | the service starts on empty tables, which satisfy the invariant |
| Service.AuthService.Register | server/server/src/auth.service.ts:10-39 | the in-place register equals `Session.Register` and keeps the invariant |
| Service.AuthService.Login | server/server/src/auth.service.ts:41-73 | the in-place login equals `Session.Login` and keeps the invariant |
| Service.AuthService.RefreshToken | server/server/src/auth.service.ts:75-107 | the in-place refresh equals `Session.Refresh` and keeps the invariant |
| Service.AuthService.Logout | server/server/src/auth.service.ts:109-113 | the in-place logout equals `Session.Logout` and keeps the invariant |
| Service.AuthService.GetUserById | server/server/src/auth.service.ts:115-126 | the public fields of the user with that id, or nothing exactly when none has it; nothing changes |
| Service.AuthService.GenerateRefreshToken | server/server/src/auth.service.ts:132-145 | the in-place issue equals `Session.IssueRefreshToken` |
| Middleware.Authenticate | server/src/auth.middleware.ts:6-21 | every refusal is a 401; a pass means the header starts with `Bearer ` and the rest verifies to the passed payload |
| Middleware.NoBearerPrefixRejected | server/src/auth.middleware.ts:9-11 | an absent header, or one not starting with exactly `Bearer `, gets 401 `Unauthorized - No token provided` |
| Middleware.BearerTokenExtracted | server/src/auth.middleware.ts:14-20 | the token verified is the header minus its first 7 characters, and the outcome is that verification's |
| Middleware.LowerCaseSchemeRejected | server/src/auth.middleware.ts:9 | `bearer ` in lower case is refused as carrying no token |
| Middleware.IssuedAccessTokenAccepted | server/src/auth.middleware.ts:15-19 | the access token `generateAccessToken` issues passes with its payload until its 15 minutes are over, and gets 401 `Unauthorized - Invalid token` from then on |
| Middleware.AuthenticateRequest | server/src/auth.middleware.ts:6-21 | on a pass `request.user` is the payload and nothing is sent; on a refusal the 401 is sent and `request.user` is unchanged |
| Routes.RegisterReply | server/server/src/auth.routes.ts:11-27 | 201 with the created user and message exactly on success; 400 with the service message exactly for `Email already exists`; 500 `Registration failed` for any other error and 500 `Database error` for a thrown non-error |
| Routes.LoginReply | server/server/src/auth.routes.ts:34-46 | 200 with the user and tokens exactly on success; 401 `Invalid credentials` exactly for that error; 500 `Login failed` otherwise |
| Routes.RefreshReply | server/server/src/auth.routes.ts:53-61 | 200 exactly on success; every failure is the same 401 |
| Routes.LogoutReply | server/server/src/auth.routes.ts:68-76 | always 200 `Logout successful`, whatever the service did |
| Routes.MeReply | server/server/src/auth.routes.ts:81-100 | 401 `Unauthorized` without a subject; 200 with the profile exactly when the lookup found one; 401 `User not found` when it found none; 500 `Failed to fetch user data` when it threw |
| Routes.RegisterReplies | server/server/src/auth.routes.ts:13-19 | a taken email is answered 400 with the service message; a new one is answered 201 |
| Routes.LoginFailuresSameReply | server/server/src/auth.routes.ts:40-41 | an unknown email and a wrong password get the identical 401 reply |
| Routes.SameSecondLoginIs500 | server/server/src/auth.routes.ts:42-43 | a second login in the same second is answered 500 `Login failed` |
| Routes.RefreshNever500 | server/server/src/auth.routes.ts:53-61 | refresh is answered 200 or the one 401, never anything else |
| Routes.MeRepliesProfile | server/server/src/auth.routes.ts:83-95 | `me` answers 200 exactly when the subject is a stored user, and 401 `User not found` otherwise |
| Validation.TrimStrips | src/utils/validation.ts:7 | `trim` leaves the input without a leading and a trailing run of white space, and the result neither starts nor ends with white space |
| Validation.TrimEmptyIff | src/utils/validation.ts:7 | the trimmed input is empty exactly when the input is all white space |
| Validation.EmailPatternParts | src/utils/validation.ts:6 | `local@left.right`, with three non-empty parts free of `@` and white space, matches the email pattern |
| Validation.EmailPatternSplits | src/utils/validation.ts:6 | every match of the email pattern splits that way |
| Validation.ValidateEmail | src/utils/validation.ts:5-14 | `Email is required` exactly when blank; `''` exactly when the untrimmed input matches the pattern |
| Validation.PaddedEmailInvalid | src/utils/validation.ts:10-12 | a valid address with a leading space is rejected as invalid |
| Validation.ComposedSingleLine | src/utils/validation.ts:23 | without line terminators, the lookaheads hold exactly when a lowercase letter, an uppercase letter and a digit all occur |
| Validation.ComposedAcrossLinesRejected | src/utils/validation.ts:23 | `Abcdefgh\n1` fails the lookaheads and gets the composition message |
| Validation.ComposedContainsClasses | src/utils/validation.ts:23 | a password passing the lookaheads contains all three classes |
| Validation.ComposedNotBlank | src/utils/validation.ts:17-23 | a password passing the lookaheads is not blank |
| Validation.ValidatePassword | src/utils/validation.ts:16-27 | required exactly when blank; too short exactly when non-blank and under 8; `''` exactly when 8 or more long and passing the lookaheads; the composition message exactly when non-blank, 8 or more long and failing them |
| Validation.AcceptedPasswordIsStrong | src/utils/validation.ts:37-47 | every password `validatePassword` accepts meets at least four strength criteria |
| Validation.MetPlusUnmet | src/utils/validation.ts:34-50 | each criterion is counted as met or reported as unmet, never both |
| Validation.UnmetHints | src/utils/validation.ts:34-50 | a hint is reported exactly when its criterion is checked and missed |
| Validation.StrengthAccounts | src/utils/validation.ts:34-50 | score plus feedback length is 5, and a hint is in the feedback exactly when its criterion fails |
| Validation.PasswordStrength | src/utils/validation.ts:29-58 | the score counts the criteria met; the feedback lists the missed ones in order; the colour is green at 4 or more, yellow at 3, orange at 2, red otherwise |
| Validation.ValidateName | src/utils/validation.ts:60-71 | each message exactly for its range of trimmed length (0, 1, over 100); `''` exactly for 2 to 100 |
| Validation.ValidateConfirmPassword | src/utils/validation.ts:73-81 | the confirmation message exactly when blank; the mismatch message exactly when non-blank and different; `''` otherwise |
| Validation.ValidateLoginForm | src/utils/validation.ts:83-93 | an email entry exactly when the pattern fails, holding `validateEmail`'s message; a password entry exactly when blank; empty exactly when both pass |
| Validation.RegisterValidIff | src/utils/validation.ts:60-81 | the name, email, password and confirmation validators all return `''` exactly when the sign-up requirements hold: trimmed name of 2 to 100, an address matching the pattern, 8 or more characters passing the lookaheads, and an identical confirmation |
| Validation.ValidateRegisterForm | src/utils/validation.ts:95-116 | one entry per failing validator, holding its message; empty exactly when the name, email, password and confirmation requirements all hold |
| TypingAnimation.Substring | src/components/TypingAnimation.tsx:32 | `substring(0, end)` is the prefix whose length is `end` clamped to the string |
| TypingAnimation.Step | src/components/TypingAnimation.tsx:24-45 | the phrase index stays in range and changes only on a deleting step from the empty text, to the next index mod the phrase count |
| TypingAnimation.Delay | src/components/TypingAnimation.tsx:45 | the delay is one of the three configured speeds |
| TypingAnimation.StepPreservesInv | src/components/TypingAnimation.tsx:24-45 | every step keeps: index in range, text a prefix of the phrase, never paused and deleting at once, paused only on the full phrase |
| TypingAnimation.StepRules | src/components/TypingAnimation.tsx:25-44 | pause turns into deleting; deleting drops the last character, or moves to the next phrase from the empty text; typing adds the next character, or pauses on the full phrase |
| TypingAnimation.RunPreservesInv | src/components/TypingAnimation.tsx:21-48 | any number of steps keeps the invariant |
| TypingAnimation.RunAppend | src/components/TypingAnimation.tsx:21-48 | runs and their elapsed times compose |
| TypingAnimation.TypeRest | src/components/TypingAnimation.tsx:38-44 | typing from a prefix of length k reaches the full phrase of length L in L - k steps, each at the typing speed |
| TypingAnimation.DeleteRest | src/components/TypingAnimation.tsx:31-33 | deleting from a prefix of length k reaches the empty text in k steps, each at the deleting speed |
| TypingAnimation.TurnAround | src/components/TypingAnimation.tsx:25-43 | on the full phrase, one step pauses and the next starts deleting |
| TypingAnimation.NextPhrase | src/components/TypingAnimation.tsx:34-37 | deleting from the empty text moves to the next phrase, not deleting |
| TypingAnimation.TypeAndTurn | src/components/TypingAnimation.tsx:25-44 | from the empty text of a phrase of length L, L + 2 firings type the whole phrase, pause and turn to deleting, taking L typing delays, one more typing delay and the pause |
| TypingAnimation.DeleteAndMove | src/components/TypingAnimation.tsx:31-37 | from deleting the full phrase of length L, L + 1 firings empty the text and move to the next phrase, each at the deleting speed |
| TypingAnimation.FullCycle | src/components/TypingAnimation.tsx:21-48 | from the empty text of phrase i, of length L, 2L + 3 steps reach the empty text of phrase `(i + 1) mod n`, taking (L + 1)(typing + deleting) + pause ms |
| TypingAnimation.TypingEffect.constructor | src/components/TypingAnimation.tsx:16-19 | the component starts on phrase 0 with empty text, neither deleting nor paused, satisfying the invariant |
| TypingAnimation.TypingEffect.NextDelay | src/components/TypingAnimation.tsx:45 | the next timeout waits the pause speed while paused, else the deleting speed while deleting, else the typing speed |
| TypingAnimation.TypingEffect.Tick | src/components/TypingAnimation.tsx:24-45 | one timeout firing updates the four state variables to `Step` of the old state and keeps the invariant |
| Testimonials.Next | src/components/Testimonials.tsx:73 | the following index, wrapping from the last to the first |
| Testimonials.Previous | src/components/Testimonials.tsx:78 | the preceding index, wrapping from the first to the last, always in range |
| Testimonials.PreviousUndoesNext | src/components/Testimonials.tsx:72-80 | previous after next restores the index |
| Testimonials.NextUndoesPrevious | src/components/Testimonials.tsx:72-80 | next after previous restores the index |
| Testimonials.Advance | src/components/Testimonials.tsx:65-67 | any number of auto-advances stays in range |
| Testimonials.AdvanceIsModular | src/components/Testimonials.tsx:65-67 | k auto-advances from i land on `(i + k) mod 4` |
| Testimonials.PlayButtonSlides | src/components/Testimonials.tsx:162 | the play button shows on the first and third testimonials only |
| Testimonials.Carousel.constructor | src/components/Testimonials.tsx:16-18 | starts on index 0, autoplaying, no video |
| Testimonials.Carousel.Current | src/components/Testimonials.tsx:128-162 | the shown testimonial is one of the list, since the index is in bounds |
| Testimonials.Carousel.GoToNext | src/components/Testimonials.tsx:72-75 | the index becomes `Next` of the old one; autoplay off; video flag unchanged |
| Testimonials.Carousel.GoToPrevious | src/components/Testimonials.tsx:77-80 | the index becomes `Previous` of the old one; autoplay off; video flag unchanged |
| Testimonials.Carousel.GoToSlide | src/components/Testimonials.tsx:82-85 | the index becomes the dot's index; autoplay off; video flag unchanged |
| Testimonials.Carousel.Tick | src/components/Testimonials.tsx:62-67 | fires only while autoplaying with no video; the index advances as for next; both flags unchanged |
| Testimonials.Carousel.ToggleVideo | src/components/Testimonials.tsx:165 | flips the video flag and changes nothing else |

## Left out

- Concurrency: each operation is one atomic step. Interleavings of two concurrent refreshes are not modelled. Their one visible effect, a `delete` that throws after the new row is stored, is the `deleteFails` parameter.
- The token and hashing libraries are parameters. Signatures, secrecy, unforgeability, bcrypt's 72-byte input limit and the random salt (a `salt` parameter) are not modelled. Nothing is assumed about a wrong password being rejected.
- One clock reading per refresh. `jwt.verify` (`server/server/src/auth.service.ts:78`) and `new Date()` (`:86`) read the clock separately, around the awaited lookup; the model uses one `now` for both, so a refresh whose clock passes `expiresAt` between the two readings, refused by the stored check alone, is not modelled.
- SessionProperties.RefreshIsSingleUse: requires that no later call reads an earlier clock than the redemption and that no stored row was issued after it. With a clock that runs back into the second a token was issued, a later login of the same user signs the same token again, and it is accepted again.
- Database failures other than the unique violation on a duplicate refresh token and the failing `delete` in refresh. Nothing models a lost connection.
- The database schema is not part of this model. Ids are natural numbers from a counter instead of generated strings, so `!userId` in the `me` handler never sees a falsy id. Timestamps are one `now` in milliseconds per call, taken as a parameter.
- String lengths count Unicode scalar values. JavaScript counts UTF-16 code units, so a password of 4 characters outside the Basic Multilingual Plane has length 8 in the original and 4 here.
- Fastify wiring: request schemas, the `onRequest` hook ordering, logging and the environment secrets. The `me` handler takes what the hook stored as a parameter.
- Rendering, timers and `useEffect` cleanup. One timeout firing is one `Tick` call. A change of the `phrases` prop, which the effect would pick up mid-cycle, is not modelled.
- TypingAnimation.TypingEffect.Tick: requires at least one phrase. With none, the original throws on `phrase.substring`.
- Testimonials.Carousel.GoToSlide: requires the index to be in range. The original accepts any number, but its only callers, the dots, pass the list's own indices.
- Testimonials.Carousel.Tick: requires autoplay on and no video playing, because otherwise the interval is not installed.
- Testimonials.Carousel.ToggleVideo: requires the play button to be shown, that is, a testimonial with a video.
- The testimonial texts and avatar URLs are display data and are left out of `Testimonials.Items`.
