# Keshimasu: a Dafny model of the puzzle engine and the player store

Keshimasu is a word-clearing puzzle. A fixed 8 x 5 board of katakana cells
(and wildcard cells marked `F`) is shown five rows at a time. The player
selects a straight run of adjacent cells and erases it when the cells spell a
country name (or, in the other mode, a capital) from the mode's dictionary
that has not been used yet. Each wildcard is filled in by answering a prompt.
The erased cells become empty, the remaining letters fall down their columns,
and a board with no letters left is a clear. A small server keeps players in
memory, adds clears per mode, and serves top-ten rankings.

This project models both halves as pure functions over immutable values and
proves what they promise:

- `common.dfy`, module `Common`: `Option`, the two modes and their wire names.
- `chars.dfy`, module `Chars`: `toKatakana`, `isValidGameChar`, and the
  JavaScript string behaviour the prompt handling relies on (`trim`,
  ASCII upper case, `slice(0, 1)`).
- `board.dfy`, module `Board`: the grid, per-column gravity (both as a
  reference function and as the source's loop), clearing a selection, and the
  completion test.
- `selection.dfy`, module `Selection`: the click automaton of
  `handleCellClick`.
- `wildcards.dfy`, module `Wildcards`: turning a committed selection into the
  candidate word, with the `prompt` answers given as an oracle sequence.
- `session.dfy`, module `Session`: the play state, `startGame`, reset, the
  click and erase handlers, and the score-report decision.
- `sorting.dfy`, module `Sorting`: a stable descending sort, standing for
  `Array.prototype.sort` with a numeric comparator.
- `server.dfy`, module `Server`: the register, score-update and rankings
  handlers over the `players` array and the `nextPlayerId` counter.

The prompt oracle is a `seq<Option<string>>`. The k-th wildcard, left to
right, reads entry k. `None` is a cancelled prompt. An oracle that has run
out also reads as a cancelled prompt. The wildcard loop takes the rule that
turns one reply into a character as a parameter. The handler passes `Answer`,
and the loop's lemmas hold for any rule that refuses a cancelled prompt.

## Model

| member | source | states |
|---|---|---|
| Common.ParseMode | keshimasu-server/server.js:68 | only "country" and "capital" name a mode, and the mode read back prints as the same string |
| Chars.ToKatakana | keshimasu-client/script.js:56-61 | the length is kept; every character in U+3041–U+3096 is moved up by 0x60; every other character is unchanged |
| Chars.ToKatakanaFixesExactly | keshimasu-client/script.js:56-61 | the conversion leaves a string unchanged exactly when the string holds no hiragana letter |
| Chars.ToKatakanaIdempotent | keshimasu-client/script.js:56-61 | converting twice gives the same string as converting once |
| Chars.HiraganaBecomesKatakana | keshimasu-client/script.js:56-67 | a converted hiragana letter lies in the katakana block that `isValidGameChar` accepts |
| Chars.TrimEmptyIffBlank | keshimasu-client/script.js:363 | `trim` yields the empty string exactly when every character is ECMAScript white space |
| Chars.ToUpper | keshimasu-client/script.js:364 | the length is kept; each ASCII letter `a`–`z` moves down by 32 to its capital; every other character is unchanged |
| Chars.IsValidGameChar | keshimasu-client/script.js:64-67 | a game character is exactly one character that is `F` or in U+30A0–U+30FF, and it is already in final form: converting to katakana and upper-casing leave it unchanged |
| Board.Column | keshimasu-client/script.js:246-252 | column c holds `b[r][c]` at every row r, top to bottom |
| Board.Kept | keshimasu-client/script.js:248-252 | the non-empty values of a column: none is empty, each comes from the column, and all are kept exactly when the column has no empty cell |
| Board.SettleKeepsValues | keshimasu-client/script.js:253-254 | a settled column keeps exactly the column's non-empty values, in their order |
| Board.SettleIsSettled | keshimasu-client/script.js:253-254 | a settled column has no empty cell below a value; its top `8 - k` cells are the empty ones |
| Board.SettledIsFixed | keshimasu-client/script.js:253-258 | settling an already settled column changes nothing |
| Board.GravityKeepsColumns | keshimasu-client/script.js:245-260 | after gravity, each column holds the same non-empty values in the same top-to-bottom order, with no value moved to another column; each column ends up settled |
| Board.GravityIdempotent | keshimasu-client/script.js:253-258 | applying gravity a second time changes nothing |
| Board.ApplyGravity | keshimasu-client/script.js:245-260 | the source's loop (scan each column upward, `unshift` the values, write back the blanks then the values) computes exactly the column-wise reference `Gravity` |
| Board.ClearCells | keshimasu-client/script.js:392-394 | exactly the selected cells become empty, and every other cell keeps its value |
| Board.CompleteIffAllBlank | keshimasu-client/script.js:225-227 | the count of non-empty values in `boardData.flat()` is zero exactly when every cell is empty (`AllBlank`) |
| Board.GravityKeepsCompletion | keshimasu-client/script.js:224-227 | gravity turns a board into a complete one exactly when the board was already complete |
| Selection.IndexOf | keshimasu-client/script.js:279 | -1 exactly when the cell is not selected; otherwise the position of its first occurrence |
| Selection.Click | keshimasu-client/script.js:263-328 | the result is never empty and ends with the clicked cell; the first click starts a selection; a selected cell truncates back to it; an unselected, non-adjacent cell restarts the selection; every result is a restart, an extension by the cell, or a prefix |
| Selection.ClickKeepsLine | keshimasu-client/script.js:263-328 | a click keeps the selection a run of distinct cells along the first cell's row or column, each one step from the previous |
| Selection.ClickAllKeepsLine | keshimasu-client/script.js:263-328 | any sequence of clicks from the empty selection keeps that shape |
| Selection.PatternBreakRestarts | keshimasu-client/script.js:289-322 | with two or more cells selected, an adjacent unselected cell that leaves the run's direction restarts the selection with that cell |
| Selection.RunContinues | keshimasu-client/script.js:285-318 | a cell that continues the run in its direction is appended |
| Wildcards.Answer | keshimasu-client/script.js:361-373 | an accepted answer is one game character, and it comes from a reply that is present and not blank |
| Wildcards.AnswerFirstChar | keshimasu-client/script.js:361-369 | a present reply is accepted exactly when its first character is a hiragana or katakana letter, `f` or `F`, and the accepted character is that first character converted to katakana and upper-cased |
| Wildcards.NonBlankAnswer | keshimasu-client/script.js:363-369 | a reply whose first character is not white space is accepted exactly when that character, converted and upper-cased, passes `isValidGameChar` |
| Wildcards.ConvertedFirstChar | keshimasu-client/script.js:364-365 | a converted, upper-cased character passes `isValidGameChar` exactly when it was a hiragana or katakana letter, `f` or `F`; white space never passes |
| Wildcards.KanaAnswer | keshimasu-client/script.js:363-369 | a reply starting with a hiragana or katakana letter yields that letter in katakana; the rest of the reply is ignored |
| Wildcards.BlankAnswerRefused | keshimasu-client/script.js:363-373 | an all-white-space reply is refused |
| Wildcards.LeadingSpaceRefused | keshimasu-client/script.js:363-368 | a reply whose first character is white space is refused, because the first character is taken before trimming |
| Wildcards.WildcardAnswerKeepsMarker | keshimasu-client/script.js:363-369 | a reply starting with `f` or `F` is accepted and leaves the marker `F` in the word |
| Wildcards.ResolveMeetsSpec | keshimasu-client/script.js:346-375 | the prompt loop yields a word exactly when every wildcard gets an accepted answer; the word then has the i-th wildcard replaced by the i-th answer and every other cell unchanged |
| Wildcards.NoWildcardNoPrompt | keshimasu-client/script.js:376-379 | without a wildcard cell no prompt is needed and the cells themselves are the word |
| Wildcards.CandidateMeetsSpec | keshimasu-client/script.js:339-379 | the erase handler's word exists exactly when every wildcard is answered, and it is then the join of the substituted cells; the `includes('F')` shortcut changes nothing |
| Session.StartGame | keshimasu-client/script.js:131-139 | the board and the reset copy are both the template; the selection and the used words are empty; the erase control is off; the session invariant holds |
| Session.Reset | keshimasu-client/script.js:408-413 | a reset restores the board to the copy taken at the start, empties the selection and the used words, keeps the mode and the author flag, and gives a valid session |
| Session.Step | keshimasu-client/script.js:168-182 | one click or erase press keeps the session invariant and leaves unchanged the state a reset returns to (only shown, non-empty cells carry a click handler) |
| Session.Play | keshimasu-client/script.js:408-413 | any sequence of clicks and erase presses keeps the session invariant and leaves unchanged the state a reset returns to |
| Session.ResetAfterPlay | keshimasu-client/script.js:408-413 | starting from a template and playing any sequence of clicks and erase presses, a reset gives back exactly the start state of that template, mode and author flag |
| Session.ResetReturnsToStart | keshimasu-client/script.js:408-413 | neither a click nor an erase changes the state that a reset returns to |
| Session.Click | keshimasu-client/script.js:263-333 | clicking a shown, non-empty cell changes only the selection, and keeps the session invariant |
| Session.SelectedCells | keshimasu-client/script.js:339 | the i-th value is the board's value at the i-th selected cell |
| Session.EraseButtonMatchesHandler | keshimasu-client/script.js:331-337 | the erase button is enabled exactly when pressing it does more than return at once (two or more cells selected), and the first click of a selection leaves it disabled |
| Session.Erase | keshimasu-client/script.js:336-406 | fewer than two cells do nothing; a failed prompt, a word outside the dictionary, or a used word (checked in that order) changes nothing; on success exactly the selected cells are emptied and gravity applied, the word is appended once, the selection is emptied, and the completion flag is the completion test of the new board |
| Session.EraseKeepsValid | keshimasu-client/script.js:381-401 | the used words stay distinct dictionary words and the selection stays well-shaped after any erase |
| Session.AddWordKeepsValid | keshimasu-client/script.js:392-400 | recording a fresh dictionary word on a new well-formed board, with the selection emptied, keeps the used words distinct and the session valid |
| Session.CompletedBoardIsInert | keshimasu-client/script.js:178-181 | once the board is empty no cell is clickable, nothing is selected, and erase does nothing |
| Session.ScoreReport | keshimasu-client/script.js:198-201 | the client reports the session's mode exactly after a clear that completes the board, outside the author's test play, with a non-zero player id |
| Session.ReportOnlyOnCompletion | keshimasu-client/script.js:224-237 | an erase leads to a report exactly when it clears the last letters of a non-author session with a player id; author test play never reports |
| Sorting.SortDesc | keshimasu-server/server.js:105-111 | the sorted list is a permutation of its input |
| Sorting.SortDescSorted | keshimasu-server/server.js:105-111 | the sorted list has non-increasing keys |
| Sorting.SortDescStable | keshimasu-server/server.js:105-111 | elements with equal keys keep their input order |
| Server.EmptyStoreValid | keshimasu-server/server.js:18-19 | the initial store, with no players and a counter of 1, meets the store invariant |
| Server.FindFirst | keshimasu-server/server.js:32 | `find`: nothing when no player matches, otherwise the first matching player |
| Server.Register | keshimasu-server/server.js:25-58 | a missing or empty nickname gives 400 with the store unchanged; otherwise 200 with a stored player of that nickname |
| Server.RegisterEffect | keshimasu-server/server.js:32-46 | a known nickname returns the stored player and adds nobody; a new one appends a player with the old counter as id and no clears, and moves the counter on by one |
| Server.RegisterKeepsValid | keshimasu-server/server.js:32-46 | registering keeps ids distinct and below the counter, and nicknames unique |
| Server.RegisterTwice | keshimasu-server/server.js:32-46 | registering the same nickname again returns the same reply and leaves the store as it was |
| Server.Bump | keshimasu-server/server.js:81-82 | the chosen mode's counter goes up by one; the other counter, the id and the nickname are kept |
| Server.UpdateScore | keshimasu-server/server.js:65-89 | a missing or zero id, or a mode other than country or capital, gives 400; an unknown id gives 404; neither changes the store; 200 replaces only the addressed player's record, bumped, and reports its new count |
| Server.UpdateScoreEffect | keshimasu-server/server.js:80-88 | in a valid store, only the addressed player's chosen counter changes, by exactly one, and the reply is the new count |
| Server.StoredIdsAccepted | keshimasu-server/server.js:68-76 | every stored player's id is accepted by the update |
| Server.UpdateScoreKeepsValid | keshimasu-server/server.js:65-89 | an update keeps the store invariant |
| Server.UpdateScoreTwice | keshimasu-server/server.js:80-88 | the update is not idempotent: two identical calls add two |
| Server.ParseKind | keshimasu-server/server.js:103-114 | exactly "total", "country" and "capital" are ranking types; "total" ranks by the sum of both counters, and a mode name ranks by that mode's counter |
| Server.NonGuests | keshimasu-server/server.js:101 | no guest is kept, and the result is no longer than the store |
| Server.NonGuestsMembers | keshimasu-server/server.js:101 | a player is kept exactly when it is stored and is not the guest, and no player is kept more often than it is stored |
| Server.NonGuestsAppend | keshimasu-server/server.js:101 | the filter keeps store order: filtering two lists joined is joining the filtered lists |
| Server.FiltersCommute | keshimasu-server/server.js:101-111 | taking the non-guests and then the players with a given score gives the same list, in store order, as doing it the other way round |
| Server.RankedIsTop | keshimasu-server/server.js:101-117 | at most ten stored non-guests are listed, in non-increasing score, and no non-guest left out scores more than anyone listed |
| Server.Entries | keshimasu-server/server.js:117-121 | the entries are ranked 1 to n in list order, with each player's nickname and score |
| Server.Rankings | keshimasu-server/server.js:96-124 | an unknown type gives 400, any other gives 200 with a ranking; the store is never changed |
| Server.RankingsCorrect | keshimasu-server/server.js:101-121 | at most ten entries, ranked 1 to n, no guest, scores non-increasing, a total being the sum of both counters and a mode ranking's score that mode's counter, every entry a stored player, no better non-guest left out |
| Server.RankingTiesKeepStoreOrder | keshimasu-server/server.js:105-111 | the sorted players with any one score are exactly the store's non-guest players with that score, in store order, as a stable sort promises |

## Left out

- Rendering, screens and the DOM (`renderBoard`, `showScreen`, `updateStatusDisplay`, `renderCreateBoard`, `checkCreationInput`, the creator name and problem number shown by `startGame`): presentation only. The one rule taken from `renderBoard` is that only non-empty cells of the bottom five rows can be clicked; it is the precondition `Session.Clickable`.
- `alert` and `prompt` dialogs: a prompt is an entry of the oracle sequence, and an alert is the `Outcome` of the erase.
- `fetch`, `localStorage`, `setupPlayer`, `promptForNickname`, `registerPlayer`, the network part of `updatePlayerScore`, and the ranking screen: client I/O. The model keeps only the decision whether a score is reported (`Session.ScoreReport`).
- Express, `cors`, `app.listen` and `console.log`: server plumbing.
- `last_updated = new Date()`: it reads the clock and nothing reads it back.
- The loose `==` comparison of player ids: ids are integers here, so a string id matching a numeric one is not modelled.
- Request bodies whose fields are not strings or numbers: a field is either absent (`None`) or a value of the expected type.
- Number precision: counters are unbounded integers, while JavaScript numbers lose precision above 2^53.
- keshimasu-server/init_db.js and keshimasu-server/db.js are not part of this model. They are database setup and a connection wrapper, and the handlers do not use them.
- A per-puzzle, idempotent credit ledger and a "next unsolved puzzle" choice are not modelled. The score handler takes no puzzle id and adds one on every call, and `Server.UpdateScoreTwice` states that.
- Chars.ToUpper: upper case is ASCII-only; every other character is kept as it is. JavaScript's `toUpperCase` also maps other scripts, and some characters become several (U+00DF becomes "SS").
- Wildcards.Answer: upper case is ASCII-only. JavaScript's full Unicode `toUpperCase` maps the ligatures U+FB00–U+FB04 to strings starting with `F`, so the source accepts such a reply as the marker `F`, and this model refuses it.
- Wildcards.Answer: characters are Unicode scalar values, while JavaScript strings are UTF-16 code units. For a reply starting with a character outside the Basic Multilingual Plane, `slice(0, 1)` in the source takes half a surrogate pair. Both versions refuse that reply, because neither half is a game character.
- Session.Erase: the text of the prompts and of the alerts is left out; only the order in which answers are read and the outcome are modelled.
