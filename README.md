# Snake game and diary editor, modelled in Dafny

This project models the two browser scripts of the repository.

**The snake game** (`snakegame/script.js`) is a grid simulation with a fixed timestep. The state is:

- the body, a sequence of cells with the head first;
- the apple;
- the current direction and the requested direction;
- the growth still owed (`pendingGrowth`);
- the score and the time of the last step;
- two phase flags, `running` and `gameOver`.

The model has two layers:

- `SnakeSpec` (snake_spec.dfy) describes the state as a value (`GameState`) and each transition as a function: `InitGame`, `PressKey`, `Step`, `SetGameOver`, and `Tick` for one render-loop callback. It also defines `Run`, which replays a whole session of callbacks, key presses and start clicks. Beside them are the board invariant `Inv` and lemmas that state what each transition promises.
- `SnakeGame.Game` (snake_game.dfy) is a class that holds the script's module-level variables as fields. Its methods (`InitGame`, `PlaceApple`, `UpdateDirectionFromKey`, `Step`, `SetGameOver`, `GameLoop`) follow the script statement by statement. Each of them except `PlaceApple` is proved to perform one `SnakeSpec` transition and to keep `Inv`: `InitGame` performs `InitGame`, `UpdateDirectionFromKey` performs `PressKey`, `Step` performs `Step`, `SetGameOver` performs `SetGameOver`, and `GameLoop` performs `Tick`. `PlaceApple` is a helper without the invariant: it is proved to put the apple on the first draw that is off the body.

`Inv` says the following about a started game:

- the body lies on the board, has no repeated cell, and is a chain of cells that share a side;
- the apple is on the board and off the body;
- the score is a non-negative multiple of 10;
- body length plus owed growth equals 3 plus one per apple eaten.

The random number generator becomes a parameter: a sequence `draws` of the cells it would yield, each inside the board. `PlaceApple` retries them in order, as the script's `while (true)` loop retries random cells. A step or a start that needs an apple requires a draw that is free.

**The diary editor** (`diary/script.js`) keeps one entry per date in the browser's storage. The key of an entry is `"diary_"` followed by the date.

- `Diary` (diary.dfy) models the storage as a `map<string, string>`, and the date picker and text area as fields of the `DiaryApp` class. The save, autosave, clear, delete and load operations are methods that update those fields.
- Listing all dates and searching them are loops over the storage, proved equal to the functions `AllDates` and `Search`.
- `DiaryText` (diary_text.dfy) holds the string operations these depend on: trimming, ASCII lower-casing, substring search, the default string order, and sorting.
- `Sequences` (sequences.dfy) holds the `Distinct` predicate that both parts share.

The model follows the code in two places where a casual reading of the game's rules would expect something else:

- **Growth is paid one step late.** On the step that eats the apple, the tail is still dropped. The owed growth is added only afterwards, so the body gets longer on the next successful step. `SnakeSpec.EatingGrowsOnTheNextStep` shows this on a 10×10 board. The body is still three cells long after the eating step and becomes four cells long on the step after it.
- **The tail cell counts as a collision.** The self-collision test skips only the head. Moving onto the current tail therefore ends the game, even when no growth is owed and the tail would have moved away (`SnakeSpec.TailCellEndsGame`).

## Model

| member | source | states |
|---|---|---|
| `SnakeSpec.Loaded` | snakegame/script.js:20-31 | the declared state keeps the board size, is neither running nor over, and satisfies the invariant on any board that fits the start body |
| `SnakeSpec.LoadedSatisfiesInv` | snakegame/script.js:20-31 | the variables as declared before any game (empty body, heading right, not running) satisfy the invariant |
| `SnakeGame.Game.constructor` | snakegame/script.js:20-31 | the object starts in exactly that declared state |
| `SnakeSpec.FreeIndex` | snakegame/script.js:51-59 | the retry loop stops at the first draw that is off the body; every earlier draw is on the body |
| `SnakeSpec.PlacedApple` | snakegame/script.js:50-60 | the placed apple is one of the draws and is on no body segment |
| `SnakeSpec.PlacedAppleInGrid` | snakegame/script.js:52-56 | when the draws are board cells, the apple lies on the board and off the body |
| `SnakeGame.Game.PlaceApple` | snakegame/script.js:50-60 | the loop sets the apple to the first free draw, which is off the body and on the board; nothing else changes |
| `SnakeSpec.KeyDirection` | snakegame/script.js:62-68 | exactly the eight codes (arrow keys and W, A, S, D) select a direction; each pair selects its unit vector (up is y - 1) |
| `SnakeSpec.PressKey` | snakegame/script.js:62-68 | a key press changes at most the requested direction; any other code changes nothing, and a direction key sets a unit vector |
| `SnakeSpec.PressKeyPreservesInv` | snakegame/script.js:62-68 | a key press changes neither body nor current direction and keeps the invariant |
| `SnakeGame.Game.UpdateDirectionFromKey` | snakegame/script.js:62-68 | only the requested direction changes, and only for the eight codes |
| `SnakeSpec.StartBody` | snakegame/script.js:34-38 | the start body has three distinct cells in a chain of neighbours, with the head at the floored centre, all on the board when it fits |
| `SnakeSpec.InitGame` | snakegame/script.js:33-48 | starting keeps the board size and gives a running game with score and step time 0, a three-cell body, and an apple taken from the draws and off the body |
| `SnakeSpec.InitEstablishesInv` | snakegame/script.js:33-48 | from any state, starting a game gives a running, valid game whose body is the start body (c,r),(c-1,r),(c-2,r) at the floored centre, with the apple on a free cell |
| `SnakeGame.Game.InitGame` | snakegame/script.js:33-48 | the body is the three centre cells, both directions are right, growth, score and step time are 0, running is set and gameOver cleared, and the apple is on the board and off the body |
| `SnakeSpec.ResolveDirection` | snakegame/script.js:73-75 | the requested direction is taken unless it is the exact reverse of the current one, which is then kept |
| `SnakeSpec.ResolvedIsNotReverse` | snakegame/script.js:73-75 | between unit directions, the direction used is a unit vector and never the reverse of the current one |
| `SnakeSpec.SetGameOver` | snakegame/script.js:107-109 | game over sets gameOver and clears running; body, apple, score and owed growth are kept |
| `SnakeGame.Game.SetGameOver` | snakegame/script.js:107-109 | called on a running game, gameOver becomes true and running false, nothing else changes, and the invariant still holds |
| `SnakeSpec.Step` | snakegame/script.js:70-105 | a step keeps the board size, the requested direction and the step time; it changes nothing unless running, and afterwards exactly one of running and gameOver holds |
| `SnakeSpec.HitsBody` | snakegame/script.js:86 | the new head hits the body exactly when it is one of the cells after the head |
| `SnakeSpec.Collides` | snakegame/script.js:81-88 | a move that does not collide stays on the board and off every cell after the head; a collision is a cell off the board or on the body |
| `SnakeSpec.Advance` | snakegame/script.js:91-96 | the moved body starts with the new head, continues with the old body in order, and is one cell longer exactly when growth is owed |
| `SnakeSpec.StepIdleUnlessRunning` | snakegame/script.js:71 | a step changes nothing unless the game is running and not over |
| `SnakeSpec.StepGameOverIff` | snakegame/script.js:73-88 | the game ends exactly when the new head leaves the board or lands on a segment after the head; body, score, apple, growth and requested direction are then unchanged, while the direction is already resolved |
| `SnakeSpec.TailCellEndsGame` | snakegame/script.js:85-88 | moving onto the current tail ends the game even when no growth is owed |
| `SnakeSpec.StepMoves` | snakegame/script.js:77-96 | after a successful move, the new head is the old head plus the direction. With growth owed, the whole old body follows, one longer, and one growth is paid. Otherwise the old body without its tail follows, at the same length |
| `SnakeSpec.StepEats` | snakegame/script.js:98-104 | when the new head is on the apple, the score rises by exactly 10 and a new apple is placed on a draw off the new body; otherwise score and apple are unchanged |
| `SnakeSpec.StepScoreMonotone` | snakegame/script.js:99-101 | a step leaves the score unchanged or raises it by exactly 10 |
| `SnakeSpec.StepPreservesInv` | snakegame/script.js:70-105 | every step keeps the board invariant: on the board, no repeated cell, a chain of neighbours, apple on a free cell, score a multiple of 10, length plus owed growth equal to 3 plus apples eaten |
| `SnakeGame.Game.Step` | snakegame/script.js:70-105 | the in-place step, using unshift and pop on the body, performs exactly `SnakeSpec.Step` and keeps the invariant |
| `SnakeSpec.EatingGrowsOnTheNextStep` | snakegame/script.js:91-100 | on a 10×10 board with the apple in front of the start body, the eating step leaves the length at 3 with one growth owed, and the next step makes it 4 |
| `SnakeSpec.WallEndsGame` | snakegame/script.js:80-83 | a head at the left edge moving left ends the game with body and score unchanged |
| `SnakeSpec.Tick` | snakegame/script.js:152-160 | a callback keeps the board size and changes nothing unless the game is running; the step time afterwards is either unchanged or the callback's timestamp |
| `SnakeSpec.TickSteps` | snakegame/script.js:153-156 | a callback steps only on a running game with a recorded step time, at least 120 ms after it |
| `SnakeSpec.StepStaysDue` | snakegame/script.js:155-156 | once a step is due, it is due at every later timestamp as well |
| `SnakeSpec.TickGate` | snakegame/script.js:153-159 | a callback takes at most one step. It steps only when the game is running and not over, a step time is recorded, and at least 120 ms have passed; the step time then becomes the timestamp. Without a step, only a missing (zero) step time is replaced by the timestamp |
| `SnakeSpec.TickPreservesInv` | snakegame/script.js:152-160 | a callback keeps the invariant |
| `SnakeGame.Game.GameLoop` | snakegame/script.js:152-160 | the callback's update of the game performs exactly `SnakeSpec.Tick` and keeps the invariant |
| `SnakeSpec.RunPreservesInv` | snakegame/script.js:152-179 | any sequence of callbacks, key presses and start or restart clicks keeps the invariant |
| `SnakeSpec.RunScoreMonotone` | snakegame/script.js:99-101 | within one game (no restart), the score never decreases |
| `SnakeSpec.GameOverIsFinal` | snakegame/script.js:153-160 | after game over, callbacks and key presses change neither body, apple, score nor step time until a restart |
| `Diary.StorageKey` | diary/script.js:69-71 | the key of a date is the prefix "diary_" followed by the date |
| `Diary.DateOf` | diary/script.js:135-136 | removing the prefix from a diary key gives the date whose key it is |
| `Diary.KeyRoundTrip` | diary/script.js:135-136 | stripping the prefix from a key inverts StorageKey, and StorageKey inverts stripping on prefixed keys |
| `Diary.DatesOfKeys` | diary/script.js:131-141 | a date has an entry exactly when its key is in the storage |
| `Diary.LoadedText` | diary/script.js:73-84 | loading gives the stored value of the current key, or "" when there is none |
| `Diary.DiaryApp.LoadDiary` | diary/script.js:73-84 | only the text area changes, and it becomes LoadedText of the storage and the selected date |
| `Diary.DiaryApp.constructor` | diary/script.js:13-18 | opening the editor on a date loads that date's entry |
| `Diary.SavedStore` | diary/script.js:86-98 | saving stores the trimmed text under the date's key when the trimmed text is not empty, and otherwise leaves the storage unchanged; every other key is untouched |
| `Diary.DiaryApp.SaveDiary` | diary/script.js:86-98 | the storage becomes SavedStore; date and text area are unchanged |
| `Diary.DiaryApp.AutoSave` | diary/script.js:111-118 | the same storage update as saving, and nothing else |
| `Diary.SaveAddsDate` | diary/script.js:86-98 | saving a non-blank text adds exactly its date to the dates with an entry; a blank text changes no date |
| `Diary.SaveThenLoad` | diary/script.js:73-98 | loading right after saving gives the trimmed text back, or the old entry if the text was blank |
| `Diary.SaveKeepsClean` | diary/script.js:86-118 | if every entry is non-empty and trimmed, saving or removing an entry keeps it so |
| `DiaryText.TrimStart` | diary/script.js:87 | the result is a suffix of the text, everything removed is white space, and it does not start with white space |
| `DiaryText.TrimEnd` | diary/script.js:87 | the result is a prefix of the text, everything removed is white space, and it does not end with white space |
| `DiaryText.Trim` | diary/script.js:87 | the trimmed text is a slice of the text, and everything before and after that slice is white space; it is empty exactly when the text is all white space |
| `DiaryText.TrimIdempotent` | diary/script.js:87 | trimming twice gives the same as trimming once |
| `Diary.DiaryApp.ClearDiary` | diary/script.js:100-109 | when confirmed, the text area is emptied and the current date's key removed; when not confirmed, nothing changes |
| `Diary.RemoveDropsDate` | diary/script.js:206-208 | removing a date's key removes exactly that date from the dates with an entry |
| `Diary.DiaryApp.DeleteDiary` | diary/script.js:206-216 | only the given date's key is removed; the text area is emptied only if that date is the selected one |
| `DiaryText.Less` | diary/script.js:140 | the default string order relates only different strings |
| `DiaryText.LessIrreflexive` | diary/script.js:140 | no string sorts before itself |
| `DiaryText.LessTransitive` | diary/script.js:140 | the default string order is transitive |
| `DiaryText.LessTotal` | diary/script.js:140 | of two different strings, one sorts before the other |
| `DiaryText.LessAsymmetric` | diary/script.js:140 | two strings never sort before each other |
| `DiaryText.Insert` | diary/script.js:140 | inserting adds exactly one copy of the element and keeps the others |
| `DiaryText.Sort` | diary/script.js:140 | sorting returns a permutation of its input |
| `DiaryText.InsertSorted` | diary/script.js:140 | inserting a new string into an ascending sequence keeps it ascending, with exactly one more element |
| `DiaryText.SortSorted` | diary/script.js:140 | sorting distinct strings gives exactly the same strings in strictly ascending order |
| `DiaryText.StrictlySortedUnique` | diary/script.js:140 | two strictly ascending sequences with the same elements are equal, so the sorted date list is fully determined |
| `DiaryText.SortedOf` | diary/script.js:131-141 | every finite set of strings has a strictly ascending listing of exactly its elements |
| `Diary.AllDates` | diary/script.js:131-141 | the date list is strictly ascending and holds exactly the dates whose key is stored |
| `Diary.DiaryApp.GetAllDiaryDates` | diary/script.js:131-141 | the loop visits the keys in any order, keeps the prefixed ones without their prefix, and sorts them; the result equals AllDates |
| `Diary.Preview` | diary/script.js:157 | the preview is at most 103 characters. A content of at most 100 characters is shown whole; a longer one shows its first 100 characters followed by "..." |
| `DiaryText.Lower` | diary/script.js:280 | lower-casing keeps the length, maps each character on its own, and leaves no ASCII capital |
| `DiaryText.Contains` | diary/script.js:280 | a keyword is found only if it is no longer than the text, and the empty keyword is always found |
| `DiaryText.ContainsAt` | diary/script.js:280 | a keyword that occurs at some position is found |
| `DiaryText.ContainsWitness` | diary/script.js:280 | a keyword that is found occurs at some position |
| `Diary.Hits` | diary/script.js:278-283 | filtering the dates yields at most one hit per date |
| `Diary.Matches` | diary/script.js:280 | a matching entry is non-empty and at least as long as the keyword, and the empty keyword matches every non-empty entry |
| `Diary.HitsMembers` | diary/script.js:278-283 | the filter keeps exactly the dates whose entry is stored and matches, each with its stored entry |
| `Diary.HitsSorted` | diary/script.js:278-283 | the filter keeps ascending order |
| `Diary.HitsSpec` | diary/script.js:278-283 | filtering keeps exactly the dates whose entry is non-empty and contains the keyword (both lower-cased), pairs each with its stored entry, and keeps ascending order |
| `Diary.Search` | diary/script.js:274-286 | every search hit is a stored entry that matches the keyword, paired with its date |
| `Diary.SearchSpec` | diary/script.js:274-286 | the search returns, in ascending date order, exactly the dates whose entry matches, each with its stored entry |
| `Diary.DiaryApp.SearchDiary` | diary/script.js:274-286 | the loop's result equals Search of the storage and the keyword |

## Left out

- Drawing (`render`, `drawCell`), `requestAnimationFrame` scheduling, the overlays, the score and final-score text, and the listener wiring (snakegame/script.js:115-150, 161-182). They produce pixels and DOM updates, not game state. A click on start or restart is modelled only as the `initGame` it triggers, in `SnakeSpec.Run`.
- `Math.random`: the draws are a parameter, and each draw is a cell of the board, as `Math.floor(Math.random() * cols)` yields. The uniform distribution is not modelled.
- SnakeGame.Game.PlaceApple: requires a draw that is off the body. The script's loop never ends when no such draw comes.
- SnakeGame.Game.Step: requires a free draw when the step eats the apple. On a board with no free cell, the script would retry forever; that case is not modelled.
- SnakeGame.Game.InitGame: requires a free draw for the first apple, for the same reason.
- SnakeGame.Game.constructor: requires a board of at least 4 columns and 1 row. The grid size comes from the canvas size, which lies outside the script. On a smaller board the start body would stick out of the grid.
- Numbers are JavaScript doubles in the script. The model uses unbounded integers for coordinates, score and timestamps. Fractional animation timestamps are not modelled.
- Diary timers and user interface: the 1-second list refresh, the 30-second autosave interval, `beforeunload`, `showStatus`, the confirm dialogs, `scrollTo`, and the Ctrl+S and Ctrl+N shortcuts (diary/script.js:49-67, 120-128, 219-271, 296-314). `ClearDiary` takes the answer to `confirm` as a parameter.
- `editDiary` and `confirmDelete` are not modelled. They only compose the modelled operations with the user interface. Picking a date is modelled by assigning `date` and calling `LoadDiary`.
- All date handling: today's date becomes a constructor parameter. `formatDate` and the newest-first re-sort by `new Date(...)` in `loadDiaryList` depend on the host's date parsing and time zone. The HTML built by `loadDiaryList` is not modelled either; only its preview rule is.
- The storage is a map. The order in which `localStorage.key(i)` lists keys is left open: the loop picks any unvisited key. Quota errors are not modelled.
- DiaryText.Lower: folds only the ASCII letters A-Z. `toLowerCase` folds all of Unicode.
- DiaryText.Less: compares characters as Unicode scalar values. The script's default sort compares UTF-16 code units, and the two orders differ only for strings that mix characters above U+FFFF with characters in U+E000..U+FFFF.
- Diary.Preview: counts Unicode scalar values. `substring` counts UTF-16 code units, so an entry with characters above U+FFFF is cut at a different place.
