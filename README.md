# Falling-food catching game: a Dafny model of its core

The application is a one-screen arcade game. The player picks a character on a menu and steers
it left and right along the bottom of the field. Food and bombs fall from the top. Catching food
scores a point. The first bomb that hits ends the run. A game-over screen then shows a remark
chosen by score tier. This project models three parts of it and proves properties about them:

- `GameLoop` (`game_loop.dfy`) models the game component's animation frame. A class `Game`
  holds the loop state: player position, the list of falling items, score, last spawn time,
  the pause flag and the "chomping" cue. `MovePlayer` is the clamped move. `Tick` is one frame.
  It applies the held keys (left before right), spawns at most one item once the 600 ms gate has
  passed, then moves every item down by its own speed and filters out the items that hit the
  player or fell past the bottom. A frame's results are specified by folds over the item list
  (`Survivors`, `EatenCount`, `Reports`). They are tied to an independent index-based description
  (`Positions`): which items survive, in which order, how many were eaten, and what score each
  bomb reports.
- `GeminiService` (`gemini_service.dfy`) models the feedback service. It maps a final score and
  a character to one of six canned messages that quote the character's name.
- `Screens` (`screens.dfy`) models the application's screen state machine. A class `App` has the
  three fields and one method per handler. Pure transition functions state what each handler does.
  `Views` is the render guard. A lemma over event sequences proves the invariant: if every
  handler fires only from the screen that wires it, then outside the menu a character is
  selected, and exactly one screen shows. A game-over report may also arrive while the
  game-over screen shows, because a frame in which several bombs hit reports once per bomb.

`types.dfy` and `constants.dfy` hold the record shapes and tuning constants the three share.

Randomness (`Math.random`) and the clock-based item id (`Date.now`) are parameters of `Tick`
(`SpawnDraws`). The frame time and the two held-key flags are parameters too. The scores the
frame passes to the game-over callback are `Tick`'s result, one per bomb hit.

## Model

| member | source | states |
|---|---|---|
| `GameLoop.Moved` | components/Game.tsx:28-42 | the position after a move is always in [0, 82]; unclamped it is exactly 1.5 left or right of the old one; otherwise it is the wall the move overshot |
| `GameLoop.Game.MovePlayer` | components/Game.tsx:28-42 | the player's new position is the clamped move of the old one; nothing else changes |
| `GameLoop.SteeredInField` | components/Game.tsx:63-65 | whatever the start position, a frame with any key held leaves the player inside [0, 82] |
| `GameLoop.BothKeysHeld` | components/Game.tsx:63-65 | with both keys held, left is applied and clamped before right, so the player ends at max(x, 1.5): 1.5 from the left wall, not 0 |
| `GameLoop.SpawnSpeed` | components/Game.tsx:76 | a spawned item's speed lies in [0.4, 1.6) |
| `GameLoop.SpawnSpeedMonotone` | components/Game.tsx:76 | for the same jitter draw, a higher score never gives a slower item |
| `GameLoop.SpawnSpeedCapped` | components/Game.tsx:76 | above a score of 50 the speed no longer depends on the score |
| `GameLoop.NewItem` | components/Game.tsx:69-77 | a new item starts at y = -10 with x in [0, 90); it is a bomb exactly when the draw is below 0.2; a bomb shows the bomb glyph and food shows one of the eight food glyphs; its speed is the spawn speed for the current score |
| `GameLoop.Game.SpawnIfDue` | components/Game.tsx:67-81 | only when more than 600 ms passed since the last spawn, one new item is appended at the end and the last spawn time becomes the frame time; otherwise both are untouched |
| `GameLoop.Positions` | components/Game.tsx:94-127 | lists exactly the indices of the items with a given fate, in strictly increasing order |
| `GameLoop.ScanStep` | components/Game.tsx:94-127 | scanning one more item appends it to the survivors if kept, adds one to the score if eaten, and adds one report, the score so far, if it is a bomb hit |
| `GameLoop.SurvivorsArePositions` | components/Game.tsx:94-127 | the k-th survivor is the k-th kept item of the array, with only its y advanced by its speed: survivors keep their relative order |
| `GameLoop.SurvivorIff` | components/Game.tsx:103-126 | an item is still present after the frame iff, after falling, it does not collide and its y is below 110 |
| `GameLoop.SurvivorsWellFormed` | components/Game.tsx:94-127 | survivors of well-formed items are well-formed: x in [0, 90), speed in [0.4, 1.6), y in [-10, 110) |
| `GameLoop.FatesPartition` | components/Game.tsx:94-127 | every item is exactly one of kept, eaten, bomb hit or dropped off the bottom |
| `GameLoop.EatenCountIsPositions` | components/Game.tsx:117-121 | the points scored in a frame equal the number of colliding food items |
| `GameLoop.NoFoodNoScore` | components/Game.tsx:112-122 | the score changes iff some food collides: bomb hits and misses never change it |
| `GameLoop.EatenCountMonotone` | components/Game.tsx:117-121 | the count of eaten food never decreases along the array |
| `GameLoop.ReportsArePositions` | components/Game.tsx:112-116 | there is one game-over report per colliding bomb, in array order; the k-th carries the starting score plus the food eaten earlier in the array; the scan continues after a bomb |
| `GameLoop.ReportsBounded` | components/Game.tsx:112-122 | each reported score lies between the frame's starting and final score, and later reports are never smaller |
| `GameLoop.TouchingIsNotColliding` | components/Game.tsx:104-110 | boxes that only share an edge do not collide (the overlap test is strict) |
| `GameLoop.FoodOnPlayerIsEaten` | components/Game.tsx:117-121 | food falling onto the player is removed, scores one point, and reports nothing |
| `GameLoop.FoodBeforeBombCounts` | components/Game.tsx:112-123 | a bomb hit after eaten food in the same frame reports the score including that food |
| `GameLoop.NearbyStep` | components/Game.tsx:98-101 | the chomping cue after one more item is the old cue or that item being food near the player |
| `GameLoop.Game.constructor` | components/Game.tsx:13-24 | a fresh game has the player at 50, no items, score 0, last spawn time 0, not paused, not chomping |
| `GameLoop.Game.TogglePause` | components/Game.tsx:167 | the pause button flips the pause flag |
| `GameLoop.Game.Resume` | components/Game.tsx:252 | the overlay's resume button clears the pause flag |
| `GameLoop.Game.AdvanceItems` | components/Game.tsx:83-130 | the in-place scan leaves exactly the survivors, adds the eaten count to the score, returns the per-bomb reports and the chomping cue, and keeps items well-formed |
| `GameLoop.Game.Tick` | components/Game.tsx:57-133 | while paused nothing changes and nothing is reported; otherwise the new state is input, then the spawn gate, then the item scan, composed in that order, and the player stays in [0, 82] |
| `GeminiService.TierOf` | services/geminiService.ts:8-28 | score 0 is the empty tier; negative scores and 1-5 are the light-snack tier; 6-15 tasty; 16-30 wow; 31-50 incredible; above 50 legendary; each as an iff |
| `GeminiService.GenerateTrainerFeedback` | services/geminiService.ts:4-29 | the chain of guarded returns yields the message of the score's tier for the character's name |
| `GeminiService.FeedbackMentionsName` | services/geminiService.ts:9-28 | every remark contains the character's name |
| `GeminiService.FeedbackDependsOnlyOnName` | services/geminiService.ts:9-28 | two characters with the same name get the same remark |
| `GeminiService.MessagesDistinct` | services/geminiService.ts:8-28 | for a given name the six messages are pairwise different |
| `GeminiService.FeedbackIsOneOfSix` | services/geminiService.ts:8-28 | every integer score yields one of the six messages, and only the one of its tier |
| `GeminiService.FeedbackExamples` | services/geminiService.ts:8-28 | score 0 gives the "Oh no!" message, 100 gives the "Legendary!" message, and -3 is treated like 1 |
| `Screens.SelectCharacter` | App.tsx:12-15 | selecting sets the character and moves to PLAYING; the final score is unchanged |
| `Screens.EndGame` | App.tsx:17-20 | game over records the score and moves to GAME_OVER from any state; the character is unchanged |
| `Screens.RestartGame` | App.tsx:22-24 | restart moves to PLAYING and keeps the character and the final score |
| `Screens.GoToMenu` | App.tsx:26-29 | back to menu moves to MENU and clears the character; the final score is unchanged |
| `Screens.Views` | App.tsx:33-52 | the menu shows iff state is MENU; the game iff PLAYING with a character; the game-over screen iff GAME_OVER with a character |
| `Screens.AtMostOneView` | App.tsx:33-52 | at most one screen shows, and none shows exactly outside the menu without a character |
| `Screens.WiredEventEstablishesInvariant` | App.tsx:34-50 | a handler fired from the screen that wires it (game over also from the game-over screen, for later bombs of the same frame) leads to a state where non-MENU implies a selected character |
| `Screens.RepeatedGameOverKeepsInvariant` | App.tsx:17-20 | a second game-over report in the same frame, arriving in GAME_OVER, keeps the invariant and the game-over screen |
| `Screens.UnwiredGameOverBlanksScreen` | App.tsx:17-52 | a game over fired from the initial menu would show no screen at all, which the wiring prevents |
| `Screens.ReachableStatesShowOneScreen` | App.tsx:8-52 | from a state satisfying the invariant, every sequence of wired events keeps it and shows exactly one screen |
| `Screens.FrameReportsWired` | App.tsx:17-20 | the game-over reports of one frame, one per bomb hit and with any scores, form a wired run from the game screen; the game-over screen ends up showing the last report's score |
| `Screens.App.constructor` | App.tsx:8-10 | the application starts on MENU with no character and final score 0 |
| `Screens.App.HandleCharacterSelect` | App.tsx:12-15 | the fields become those of `SelectCharacter` on the old state |
| `Screens.App.HandleGameOver` | App.tsx:17-20 | the fields become those of `EndGame` on the old state |
| `Screens.App.HandleRestart` | App.tsx:22-24 | the fields become those of `RestartGame` on the old state |
| `Screens.App.HandleBackToMenu` | App.tsx:26-29 | the fields become those of `GoToMenu` on the old state |
| `Screens.App.Screen` | App.tsx:33-52 | at most one screen shows, and exactly one whenever the invariant holds |

## Left out

- Rendering (JSX, styling), `components/GameOver.tsx`, `components/CharacterSelection.tsx` and
  the character catalog in `constants.ts`: presentation only.
- `requestAnimationFrame` scheduling, keyboard listeners and the touch repeat timer
  (components/Game.tsx:45-54, 135-155): each frame is one call of `Tick`. The keys held
  (`ArrowLeft`/`a`, `ArrowRight`/`d`) are two booleans. A touch repeat is a call of `MovePlayer`
  between frames.
- `Math.random` and `Date.now`: their values are passed in (`SpawnDraws`); each draw is assumed in [0, 1).
- JavaScript number semantics: positions, speeds and times are `real`, with no rounding.
- React display mirrors (`setScore`, `setItems`, `setPlayerX`): only the loop state the refs hold is
  modelled. `isChomping` is kept as a field because the frame computes it.
- `GameLoop.Game.MovePlayer`: the source computes the move in a React state updater from the displayed
  position. The model applies it at once to the loop position, as if the updater runs immediately
  and the two positions agree.
- `GameLoop.Game.Tick`: for the same reason, the collision test of a frame uses the position after
  both held moves. In the source a queued second updater (both keys held) may only reach the loop
  position at the next render, so that frame's collision test can see the position after the
  first move only.
- `GameLoop.Game.AdvanceItems`: the source changes `y` on the item objects themselves. The model rebuilds
  item values, so the render copy sharing those objects is not captured.
- The 600 ms delay and the promise around the feedback service, and the unmount guard of the
  game-over screen: asynchronous plumbing.
- `GeminiService.GenerateTrainerFeedback`: the score is an integer; the source's `number` could be
  fractional, but the game only ever passes whole counts.
- React's batching of state updates and the remounting of the game component: a new run is a
  fresh `Game` from its constructor.
- There is no lives counter: every colliding bomb reports the score through the game-over
  callback. The pause button toggles the flag, so two presses resume the game. The player's width
  never changes.
