# Hangman backend: a Dafny model of the three controllers

This project models the core of a Laravel hangman API in which players register by phone and activate their account with a WhatsApp code. A player then creates games on a random word, joins one, guesses letters, and abandons or finishes it. Administrators activate, deactivate and promote accounts.

The model is purely functional. The database is one value, `Records.System`, which holds:

- the `users` and `games` tables as sequences, where a row's id is its position (rows are only appended);
- the personal access tokens as a set;
- a counter for issuing new tokens;
- the verification-code cache as a map.

Every controller action is a function from a store and its request fields to a `Step`. A `Step` is the reply (its HTTP status is given by `Records.HttpStatus`) plus the new store.

What the model takes as parameters:

- The random-word provider's answer is a parameter `Option<string>`, where `None` is an unsuccessful response.
- The code `rand(100000, 999999)` draws is a parameter restricted to that range.
- The WhatsApp delivery outcome is a boolean.
- The configured `AHORCADO_MAX_ATTEMPTS` is a parameter.

Strings are PHP byte strings, with one `char` per byte. So `strlen` is `|w|`, `strtolower` folds only ASCII letters, and the validator's `/[ñáéíóú]/i` pattern is a set of single bytes. The pattern has no `/u` flag, so it matches the bytes C3, B1, A1, A9, AD, B3 and BA. C3 is the UTF-8 lead byte of the six named letters, in either case, and of every other character from U+00C0 to U+00FF, so words holding any of those are refused. The pattern tests every byte, so an accented letter outside that range passes unless one of its continuation bytes is B1, A1, A9, AD, B3 or BA: `pāta`, whose ā is C4 81, is accepted (`WordSource.OtherAccentAccepted`), while `pĩta`, whose ĩ is C4 A9, is refused (`WordSource.OtherAccentRefused`). So are ġ (C4 A1), ı (C4 B1), ŭ (C5 AD), ų (C5 B3) and ź (C5 BA), and a three-byte letter such as ḡ (E1 B8 A1), refused by its third byte (`WordSource.ThreeByteAccentRefused`). Conversely, a continuation byte B1, A1, A9, AD, B3 or BA refuses a word that has no accent at all, such as Cyrillic б, which is D0 B1.

Modules, in dependency order:

- `Optional`, `Sequences`, `Text`: the query helpers (`->first()`, `->get()`), and byte-string helpers for `trim`, `strtolower`, `implode(' ', str_split(..))` and decimal text.
- `WordSource`: the validator in `fetchRandomWord`.
- `Records`: rows, statuses, errors and replies.
- `Access`: the `auth:sanctum` middleware, `ensureAccountIsActive`, `authorizeAdmin` and the phone lookup.
- `Hangman`: a fresh game, the progress mask, and one played letter.
- `Games`: `GameController`.
- `Admin`: `AdminController`.
- `Accounts`: `UsuarioController`.
- `Invariants`: what every store satisfies, how a store may evolve, and a preservation lemma per action.
- `Properties`: facts that relate two requests.
- `Sessions`: any sequence of requests.

The store invariant `Invariants.Valid` states:

- `is_active` holds exactly when the status is `en progreso`;
- no player has two active games;
- each game's `progress` is its word with untried bytes shown as `_`;
- `letters_attempted` has no repeats and holds only lower-case letters;
- `remaining_attempts` is never negative, and is at least one while the game is not over;
- an account disabled by an administrator is inactive;
- phones are unique;
- every token belongs to an existing account that no administrator disabled;
- cached codes lie in the `rand` range.

`Invariants.Follows` states how a store may change from one request to the next:

- rows are never deleted;
- a game's owner and word never change;
- letters are only appended;
- attempts only fall;
- a game waiting for a player stays exactly as it is for as long as it waits;
- a game in progress only stays in progress or ends;
- a finished game is never touched again;
- an account an administrator disabled is never touched again.

`Invariants.PendingStep` adds what a single request may do to a waiting game: leave it alone, or let a player join it, which sets only its player, its status and its active flag. `Sessions.Apply` proves it for every request.

`Sessions.Run` proves that the invariants and `Follows` hold after any sequence of requests, provided the configured maximum is at least one.

Behaviour of the code worth knowing:

- The word source makes one request, with no retries (GameController.php:76-83).
- It refuses only words containing the listed accented bytes, not every non-letter. `Properties.HyphenAccepted` and `Properties.NonLetterUnwinnable` show that a word such as `x-ray` is accepted and can never be won.
- The per-guess WhatsApp message is sent synchronously after the game is saved.
- `sendVerification`'s check for a reused phone of a disabled account (UsuarioController.php:57-60) can never fire, because `unique:users,phone` refuses every existing phone first.
- The `!$user` branch of `authorizeAdmin` can never fire behind `auth:sanctum`. `Access.AuthorizeAdmin` keeps it, and `Admin.Gate` shows the middleware answering first.
- No route reaches `resendVerificationCode` (routes/api.php:9-31). The model keeps the action, and `Sessions.Command` includes it as `ResendCode`, so the results about request sequences cover the routed requests and this action too.

## Model

| member | source | states |
|---|---|---|
| Access.Caller | routes/api.php:15-32 | a token authenticates its owner exactly when the store holds it; any other token gets 401 |
| Access.Refusal | app/Http/Controllers/GameController.php:24-37 | an inactive caller gets 403 whose message tells an administrator's deactivation from any other, every token of that user is deleted, and nothing else changes |
| Access.FindUser | app/Http/Controllers/AdminController.php:45 | the lookup by phone yields an account with that phone, or there is none |
| Access.Target | app/Http/Controllers/AdminController.php:38-45 | `required\|exists:users,phone` passes exactly when the phone is not blank (something other than space, tab, newline, carriage return, NUL or vertical tab) and some account has it, and the account found carries that phone |
| Admin.Gate | app/Http/Controllers/AdminController.php:14-21 | an administrator's action runs exactly when the token is known and its owner's role is `admin`; otherwise 401 or 403 |
| Admin.ActivateUser | app/Http/Controllers/AdminController.php:34-58 | an active account gets 400; an account an administrator disabled gets 403 and is never changed; any other account becomes active with its reason cleared |
| Admin.Deactivate | app/Http/Controllers/AdminController.php:61-88 | an inactive account gets 400; an active one becomes inactive with reason `admin_disabled`, and exactly its tokens are deleted |
| Admin.PromoteToAdmin | app/Http/Controllers/AdminController.php:91-115 | inactive accounts and administrators get 400; otherwise only the role becomes `admin` |
| Accounts.CodeKeyInjective | app/Http/Controllers/UsuarioController.php:72 | two phones never share a cache key |
| Accounts.RegisterAdmin | app/Http/Controllers/UsuarioController.php:23-45 | invalid fields, blank ones included, get 422; a wrong admin code gets 403 with no change; the code `270905` appends an active administrator |
| Accounts.SendVerification | app/Http/Controllers/UsuarioController.php:48-86 | valid fields append an inactive player and cache the drawn code under its key; the writes stay when delivery fails and the reply is 500 |
| Accounts.ResendVerificationCode | app/Http/Controllers/UsuarioController.php:89-118 | a disabled account gets 403; otherwise a fresh code replaces the cached one, and the reply is success when the message was delivered and 500 when it was not |
| Accounts.VerifyCode | app/Http/Controllers/UsuarioController.php:121-152 | a blank code gets 422; a disabled account gets 403 whatever the code; the account becomes active and the code is consumed exactly when the cached code is non-zero and equals the submitted digits; otherwise 400 and no change |
| Accounts.Login | app/Http/Controllers/UsuarioController.php:155-180 | a blank password gets 422; a disabled account gets 403 before the password is checked; a wrong password gets 401; otherwise a new token, even for an inactive account |
| Accounts.Logout | app/Http/Controllers/UsuarioController.php:183-187 | exactly the presented token is deleted |
| WordSource.Candidate | app/Http/Controllers/GameController.php:78-81 | a word is accepted exactly when the trimmed body has 4 to 8 bytes and none of the accented bytes, and the word is that body lower-cased |
| WordSource.Fetch | app/Http/Controllers/GameController.php:76-83 | an unsuccessful response yields no word; a successful one yields the validator's verdict on its body |
| WordSource.CandidateShape | app/Http/Controllers/GameController.php:79-80 | every accepted word has 4 to 8 bytes, no upper-case letter, no accented byte and no trimmed byte at either end |
| WordSource.CandidateIdempotent | app/Http/Controllers/GameController.php:78-81 | validating an accepted word again gives the same word |
| WordSource.CandidateUnwrapsArray | app/Http/Controllers/GameController.php:78 | the provider's JSON array `["w"]` is judged as the bare `w` |
| WordSource.SameTrimSameCandidate | app/Http/Controllers/GameController.php:78-79 | bodies that trim alike are judged alike |
| WordSource.AccentedRejected | app/Http/Controllers/GameController.php:79 | a body holding the byte C3 is refused |
| WordSource.AccentedLeadByte | app/Http/Controllers/GameController.php:79 | each of ñ á é í ó ú, either case, encodes in UTF-8 with lead byte C3 |
| WordSource.CandidateOfTrimmed | app/Http/Controllers/GameController.php:78-81 | for text with no stripped byte at either end, the validator only checks the length and the accented bytes, then lower-cases |
| WordSource.OtherAccentAccepted | app/Http/Controllers/GameController.php:79 | an accented letter whose lead byte is not C3 and none of whose continuation bytes is B1, A1, A9, AD, B3 or BA passes: `pāta` (ā is C4 81) is accepted |
| WordSource.OtherAccentRefused | app/Http/Controllers/GameController.php:79 | an accented letter outside U+00C0 to U+00FF whose second byte is one of the six is refused: `pĩta` (ĩ is C4 A9) |
| WordSource.ThreeByteAccentRefused | app/Http/Controllers/GameController.php:79 | every byte is tested, so a three-byte letter is refused by a third byte from the set: `pḡta` (ḡ is E1 B8 A1) |
| WordSource.CandidateGato | app/Http/Controllers/GameController.php:78-81 | `["Gato"]` yields `gato` |
| WordSource.CandidateTooShort | app/Http/Controllers/GameController.php:79 | `["sol"]` is refused |
| WordSource.CandidateTooLong | app/Http/Controllers/GameController.php:79 | `["murcielago"]` is refused |
| Text.Trim | app/Http/Controllers/GameController.php:78 | the result is the longest slice whose first and last bytes are not in the cut set |
| Text.TrimPadded | app/Http/Controllers/GameController.php:78 | trimming padding made of cut bytes gives back the core |
| Text.Lower | app/Http/Controllers/GameController.php:195 | lower-casing maps each byte by itself and folds only `A`-`Z` |
| Text.Spaced | app/Http/Controllers/GameController.php:223 | the bytes of the mask at even positions, separated by single spaces |
| Text.SpacedRoundTrip | app/Http/Controllers/GameController.php:258 | the spaced mask a reply shows determines the stored mask |
| Text.DecimalRoundTrip | app/Http/Controllers/UsuarioController.php:138 | the decimal text of a code reads back as that code |
| Hangman.MaskComplete | app/Http/Controllers/GameController.php:225 | the mask equals the word exactly when every byte is tried or is itself `_` |
| Hangman.NewGame | app/Http/Controllers/GameController.php:53-61 | a new game is `por empezar`, inactive, with no player and no letters, full attempts, and an all-`_` mask of the word's length |
| Hangman.RevealExtendsMask | app/Http/Controllers/GameController.php:205-214 | revealing a new letter on the mask of the tried letters gives the mask of the tried letters plus it |
| Hangman.RevealLoop | app/Http/Controllers/GameController.php:205-214 | the loop shows the letter wherever the word holds it, keeps other positions, and reports whether it found one |
| Hangman.Play | app/Http/Controllers/GameController.php:195-237 | the letter is appended and revealed, and an attempt is charged exactly when it is absent; won exactly when the mask is the word, else lost exactly when no attempts remain; otherwise status and activity are unchanged |
| Hangman.GatoScenario | app/Http/Controllers/GameController.php:183-246 | guessing a, t, o, g on `gato` shows `_a__`, `_at_`, `_ato`, then wins |
| Hangman.SolScenario | app/Http/Controllers/GameController.php:216-237 | with one attempt, an absent letter on `sol` leaves zero attempts and loses at once |
| Games.ActiveGameOf | app/Http/Controllers/GameController.php:190 | the first game the caller is actively playing, or none when no game is |
| Games.Create | app/Http/Controllers/GameController.php:40-72 | without a word 500 and no change; otherwise 201 naming the new game, which is the only row appended |
| Games.OpenListing | app/Http/Controllers/GameController.php:92-99 | exactly the caller's `por empezar` games, in id order, each with its word's length instead of the word |
| Games.AvailableGames | app/Http/Controllers/GameController.php:87-104 | 404 exactly when the caller has no unjoined game, otherwise the listing; nothing is written |
| Games.Join | app/Http/Controllers/GameController.php:137-180 | an unknown id gets 422; a caller who already plays gets 400 naming that game; a game not theirs or not `por empezar` gets 403; otherwise only that game becomes the caller's game in progress |
| Games.Guess | app/Http/Controllers/GameController.php:183-246 | a bad letter gets 422; no active game gets 404; a tried letter gets 400 with no change; otherwise the letter is played on the active game alone |
| Games.Abandon | app/Http/Controllers/GameController.php:105-134 | without an active game 404 and no change; otherwise only that game becomes `abandonada` and inactive |
| Games.Current | app/Http/Controllers/GameController.php:249-262 | 404 exactly when the caller plays no game; otherwise the spaced mask and attempts of the game the lookup finds; nothing is written |
| Games.History | app/Http/Controllers/GameController.php:265-271 | exactly the caller's won, lost and abandoned games, in id order, as stored; nothing is written |
| Invariants.EmptyValid | app/Models/game.php:12-26 | the empty store satisfies every invariant |
| Invariants.ValidAligned | app/Http/Controllers/GameController.php:205-206 | in a valid store every mask has its word's length, so the reveal loop's indices match |
| Invariants.RefusalValid | app/Http/Controllers/GameController.php:24-37 | the refusal keeps the store valid |
| Invariants.CreateValid | app/Http/Controllers/GameController.php:40-72 | with a maximum of at least one, create keeps the store valid and only appends |
| Invariants.ReadsValid | app/Http/Controllers/GameController.php:87-104 | the listing, current-game and history requests keep the store valid |
| Invariants.JoinValid | app/Http/Controllers/GameController.php:137-180 | join keeps the store valid, including one active game per player |
| Invariants.GuessValid | app/Http/Controllers/GameController.php:183-246 | guess keeps the mask, distinct letters, non-negative attempts and activity-status agreement |
| Invariants.AbandonValid | app/Http/Controllers/GameController.php:105-134 | abandon keeps the store valid |
| Invariants.ActivateValid | app/Http/Controllers/AdminController.php:34-58 | activation keeps the store valid and never touches an account an administrator disabled |
| Invariants.DeactivateValid | app/Http/Controllers/AdminController.php:61-88 | deactivation keeps the store valid: the disabled account holds no token afterwards |
| Invariants.PromoteValid | app/Http/Controllers/AdminController.php:91-115 | promotion keeps the store valid |
| Invariants.RegisterAdminValid | app/Http/Controllers/UsuarioController.php:23-45 | registering an administrator keeps phones unique |
| Invariants.SendVerificationValid | app/Http/Controllers/UsuarioController.php:48-86 | registering a player keeps phones unique and codes in range |
| Invariants.ResendValid | app/Http/Controllers/UsuarioController.php:89-118 | resending a code keeps the store valid |
| Invariants.VerifyValid | app/Http/Controllers/UsuarioController.php:121-152 | verifying keeps the store valid and never activates a disabled account |
| Invariants.LoginValid | app/Http/Controllers/UsuarioController.php:155-180 | login never gives a token to a disabled account |
| Invariants.LogoutValid | app/Http/Controllers/UsuarioController.php:183-187 | logout keeps the store valid |
| Properties.CurrentShowsActiveGame | app/Http/Controllers/GameController.php:253-261 | in a valid store, `current` shows the spaced mask and attempts of the one game the caller plays, and the shown mask reads back as the stored one |
| Properties.ActiveGameUnique | app/Http/Controllers/GameController.php:145 | in a valid store, the game the lookup finds is the player's only active game |
| Properties.SecondJoinRefused | app/Http/Controllers/GameController.php:144-157 | after a successful join, every further join naming an existing game gets 400 naming the joined game (an unknown id still fails validation first) |
| Properties.RepeatedGuess | app/Http/Controllers/GameController.php:198-200 | a letter sent again after it did not end the game gets 400 with no change; after a win or loss the next guess finds no active game |
| Properties.DeactivationSticks | app/Http/Controllers/AdminController.php:51-53 | after a deactivation, activation is refused with 403, and the account's tokens no longer authenticate |
| Properties.BlankFieldsRefused | app/Http/Controllers/UsuarioController.php:25-30 | any phone or password that is empty or holds only blanks fails `required`: 422 and no change, even with the right admin code |
| Properties.DisabledLockedOut | app/Http/Controllers/UsuarioController.php:131-133 | a disabled account gets 403 from verification and login, with no change |
| Properties.InactiveLoginRevoked | app/Http/Controllers/UsuarioController.php:164-173 | an inactive account that no administrator disabled can log in, and its first game request gets 403 and deletes the token |
| Properties.SentCodeVerifiesOnce | app/Http/Controllers/UsuarioController.php:136-143 | the code sent at registration activates the account once; sent again, it gets 400 |
| Properties.ZeroAttemptsGoNegative | app/Http/Controllers/GameController.php:51 | with a configured maximum of zero, a wrong letter leaves -1 attempts |
| Properties.NonLetterUnwinnable | app/Http/Controllers/GameController.php:79 | a word holding a byte that is neither a lower-case letter nor `_` can never be completed |
| Properties.HyphenAccepted | app/Http/Controllers/GameController.php:78-81 | the validator accepts `["x-ray"]` as `x-ray` |
| Sessions.Apply | routes/api.php:9-31 | every routed request, and the unrouted resend action, keeps the store valid and evolves it only as permitted; a game waiting for a player is either untouched or joined, with nothing else about it changed |
| Sessions.Run | routes/api.php:9-31 | after any sequence of routed requests and resend actions the store is valid and evolved only as permitted |
| Sessions.DisabledStaysDisabled | app/Http/Controllers/AdminController.php:51-53 | an account an administrator disabled stays unchanged and inactive after any sequence of requests |
| Sessions.TerminalStaysTerminal | app/Http/Controllers/GameController.php:269 | a won, lost or abandoned game stays unchanged after any sequence of requests |
| Sessions.GamesStayWellFormed | app/Http/Controllers/GameController.php:183-246 | after any sequence of requests every game keeps the mask and the letters distinct, its attempts are not negative, it is active exactly when in progress, and no player has two active games |

## Left out

- Messaging and Slack: WhatsApp messages and the delayed Slack summary job are outside the store. In `guess` and `abandon`, a failed WhatsApp send after the save would answer 500 with the writes kept; the model answers with the success reply.
- Passwords: `Hash::make`, `bcrypt` and `Hash::check` are modelled as storing and comparing the password itself.
- Code expiry: the ten-minute lifetime of cached codes is not modelled, so a code stays until it is consumed or replaced.
- Cache errors: the 500 branch of `verifyCode` for a failing cache is not modelled.
- The `name` field is not modelled. Its `required|string|max:255` rule adds one more way to get 422.
- Input middleware: Laravel's `TrimStrings` middleware is not modelled; request strings are taken as sent. What `required` does with such strings is modelled (`Text.Filled`): a string that is empty or holds only space, tab, newline, carriage return, NUL or vertical tab fails it.
- Reply bodies: `availableGames` lists id, word length, mask and attempts, not every column. The 400 from `join` names the active game by id only.
- `AdminController::index` is not part of this model: it loads the `attempts` relation of an `Attempt` model that is not among the core's sources.
- Concurrency: each request is one atomic step, so interleaved requests are not modelled.
- Integer width: ids, counters and attempts are unbounded integers.
- Configuration: `env('AHORCADO_MAX_ATTEMPTS', 7)` is the parameter `maxAttempts`. A value set in the environment arrives as text; it is modelled as its number.
- Accounts.VerifyCode: the comparison follows PHP's `==` only for a submitted code that is a plain string of digits. PHP also accepts leading or trailing whitespace, a sign, a fraction or an exponent that spell the same number; the model refuses those.
- Games.Guess: requires every stored mask to have its word's length. `Invariants.ValidAligned` shows that every valid store meets this, so the model does not describe PHP's behaviour on a corrupted row.
- Accounts.RegisterAdmin: the rules `max:15` on the phone and `min:6` on the password are read on bytes, while Laravel counts characters. They agree for ASCII input; a password such as `ñññ` (6 bytes, 3 characters) is accepted by the model but answered 422 by the controller.
- Accounts.SendVerification: the same byte reading of `max:15` and `min:6` as for `Accounts.RegisterAdmin`.
- Games.OpenListing: the queries have no `orderBy`, so the database chooses the row order. The model fixes it to id order.
- Games.AvailableGames: lists in id order, through `Games.OpenListing`, for the same reason.
- Games.History: fixes the order of the listed games to id order, although the query leaves the order to the database.
- Games.ActiveGameOf: `->first()` without `orderBy` may return any matching row, and the model takes the lowest id. In a valid store at most one row matches (`Properties.ActiveGameUnique`), so the choice makes no difference there. `Access.FindUser` takes the lowest id in the same way, and phones are unique.
- Sessions.Run: requires a configured maximum of at least one. `Properties.ZeroAttemptsGoNegative` shows what happens otherwise.
