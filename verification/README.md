# Small browser games and a visualizer, modelled in Dafny

This project models four small pieces of logic from a collection of browser
projects and proves properties about them.

- **The spoke game** (`audio-game/script.js`). Four tokens sit on a ring of
  ten spokes: player, goal, foe and creep. The arrow keys move the player
  around the ring. After each such move the foe steps toward the goal and
  the creep steps toward the player. Up and down pull the goal toward the
  player or push it away. A check after every move ends the round when the
  creep catches the player, the foe reaches the goal, or the player reaches
  the goal.
- **The choice-based text-adventure engine** (`text-engine-main/index.js`).
  A disk is a list of rooms with numbered choices. `loadDisk` installs a
  disk. `getRoom` finds a room by id. `enterRoom` shows a room and puts its
  choices in force. `applyInput` trims the typed line, reads it with
  `parseInt(value, 10)`, checks the range and runs the chosen handler.
  Everything the engine prints is an output event.
- **The shipped story disk "Echoes in Neon"**
  (`text-engine-main/game-disks/unlimited-adventure.js`). It is kept as a
  constant room graph with six rooms of four choices each.
- **Pure helpers of the audio visualizer**
  (`Dirk-Shoemaker-Audio-Visualizer-2.0/visualizer.js`):
  - `avgRange` and `avgRangeEnd` average analyser bins;
  - `formatTime` shows the player's clock;
  - the particle pool of `spawnParticles` and `Particle.update`;
  - the peak-hold meters;
  - `applyTheme` and the number keys 1 to 5, which choose a HUD colour scheme.

Modules and files:

| file | module | contents |
|---|---|---|
| options.dfy | `Options` | `Option` |
| js_text.dfy | `JsText` | JavaScript string behaviour the code relies on: `trim`, `parseInt(s, 10)`, `Number.prototype.toString`, `padStart`, string `<` |
| js_number.dfy | `JsNumber` | NaN and the infinities; `Math.trunc`; the `%` operator |
| spoke_game.dfy | `SpokeGame` | the spoke game |
| text_engine.dfy | `TextEngine` | the engine |
| closed_disk.dfy | `ClosedDisk` | what the engine guarantees on a disk whose transitions all resolve |
| story_disk.dfy | `StoryDisk` | the story disk and its graph facts |
| meters.dfy | `Meters` | `avgRange`, `avgRangeEnd`, peak-hold meters |
| time_format.dfy | `TimeFormat` | `formatTime` |
| particles.dfy | `Particles` | the particle pool |
| themes.dfy | `Themes` | `applyTheme`, HUD schemes, number keys |

Conventions:

- JavaScript numbers are exact reals or integers. Where the code can meet
  NaN or an infinity, those values are explicit.
- `Math.random()` results are parameters: the spoke a new round starts on,
  a particle's life, and whether a sparkle fires.
- Story handlers are delayed with `setTimeout`. The model enters their
  target room at once.

## Model

| member | source | states |
|---|---|---|
| SpokeGame.Offset | audio-game/script.js:52-53 | The distance the game compares is below 10 and is zero exactly when the token is on its target. It is the number of clockwise steps from the target to the token |
| SpokeGame.MoveToward | audio-game/script.js:48-55 | A token on its target stays put, and a token next to its target on either side steps onto it. Otherwise it moves to a ring neighbour, and either reaches the target or its offset from the target drops by exactly one |
| SpokeGame.ChaseReaches | audio-game/script.js:48-55 | Repeated steps toward a fixed target reach it once the number of steps covers the starting offset, and then stay there |
| SpokeGame.ChaseWithinNine | audio-game/script.js:48-55 | Nine steps toward a fixed target always reach it, from any spoke |
| SpokeGame.MoveTowardNotShortestArc | audio-game/script.js:50-54 | From spoke 1 with target 3 the step goes to spoke 0, which is further along the shorter arc |
| SpokeGame.MoveAway | audio-game/script.js:57-64 | A token on its target stays put. Otherwise it moves to a ring neighbour that is never the target. Its offset does not shrink unless it was 9 |
| SpokeGame.MoveAwayNotFurtherAlongRing | audio-game/script.js:57-64 | Pushed away from spoke 0 while at spoke 5, the token goes to spoke 6, which is closer to spoke 0 around the ring |
| SpokeGame.NewRound | audio-game/script.js:79-84 | The player starts on the rolled spoke. Goal, foe and creep sit 3, 6 and 9 spokes further clockwise, all four distinct, and the game is not over |
| SpokeGame.CheckGameState | audio-game/script.js:66-77 | A catch by the creep beats the foe on the goal, which beats the player on the goal (each as an if-and-only-if). Any of them starts a new round; otherwise the board is unchanged |
| SpokeGame.NewRoundUndecided | audio-game/script.js:66-84 | A freshly started round is never decided by the next check |
| SpokeGame.Move | audio-game/script.js:17-39 | Right and left move the player one spoke, step the foe toward the goal and the creep toward the player's new spoke, and leave the goal alone. Up and down move only the goal, toward or away from the player |
| SpokeGame.KeyDown | audio-game/script.js:12-46 | After game over nothing happens. A non-arrow key changes nothing and is not checked. An arrow key moves the tokens and then checks the board |
| SpokeGame.StaysLive | audio-game/script.js:5-13 | From a live board, no sequence of key presses ends the game |
| SpokeGame.NeverGameOver | audio-game/script.js:5-13 | `gameOver` is never set, so from the initial board every arrow key is always acted on |
| SpokeGame.FoeClosesIn | audio-game/script.js:17-29 | A horizontal move brings the foe onto the goal or one offset step closer to it |
| JsText.Trim | text-engine-main/index.js:77 | The trimmed text is a slice of the line with only white space cut off before and after it. It neither starts nor ends with white space, and it is empty exactly when the line is all white space |
| JsText.TrimIdempotent | text-engine-main/index.js:77 | Trimming twice is trimming once |
| JsText.ParseIntOfIntToString | text-engine-main/index.js:86 | `parseInt` reads back any integer's decimal text, with or without trailing non-digit junk: "2abc" reads as 2 |
| JsText.ParseInt | text-engine-main/index.js:86 | `parseInt` gives NaN exactly when, after leading white space and an optional sign, no digit follows; a negative result comes only after a minus sign |
| JsText.ParseIntOfText | text-engine-main/index.js:86 | White space, then an optional `+` or `-`, then digits, then anything that does not start with a digit: `parseInt` reads the digits' value, negated after `-`. So " 2" and "+2" read as 2 |
| JsText.NatToStringValue | Dirk-Shoemaker-Audio-Visualizer-2.0/visualizer.js:65 | A natural number's decimal text reads back as the number |
| JsText.PadStart | Dirk-Shoemaker-Audio-Visualizer-2.0/visualizer.js:65 | Padding reaches the requested width, keeps the text as a suffix and fills the front with the pad character only |
| JsText.NatToString | Dirk-Shoemaker-Audio-Visualizer-2.0/visualizer.js:65 | A natural number's text is a non-empty run of digits. It is one character exactly below 10 and starts with 0 only for zero |
| JsText.IntToString | Dirk-Shoemaker-Audio-Visualizer-2.0/visualizer.js:65 | An integer's text is non-empty and starts with a minus sign exactly when the integer is negative, otherwise with a digit |
| JsText.LexTrichotomy | Dirk-Shoemaker-Audio-Visualizer-2.0/visualizer.js:714 | String `<` is a strict total order: it is irreflexive and asymmetric, any two different strings are ordered one way, and `<=` is `<` or equality |
| TextEngine.FindRoom | text-engine-main/index.js:39-41 | The search finds the first room with the id, or reports that no room has it |
| TextEngine.GetRoom | text-engine-main/index.js:39-41 | `getRoom` succeeds exactly when some room has the id, and it returns the first such room |
| TextEngine.FindRoomSameIds | text-engine-main/index.js:39-41 | The search depends only on the rooms' ids |
| TextEngine.EnterRoom | text-engine-main/index.js:44-73 | An unknown id prints only an error and changes nothing. A known id becomes the current room and the room is shown. The room's choices come into force when it has any; otherwise the previous choices stay |
| TextEngine.EnterRoomKeepsRooms | text-engine-main/index.js:44-73 | Entering a room never changes the disk's rooms |
| TextEngine.EnterThenGetRoom | text-engine-main/index.js:44-53 | After entering a known room, the current room id is that id and looking it up gives the same room |
| TextEngine.RunScript | text-engine-main/index.js:108-111 | A handler narrates first and then enters its target room, if it has one |
| TextEngine.RunChoice | text-engine-main/index.js:106-114 | A choice runs its `outcome` when present, else its `action`, else prints that it has no outcome |
| TextEngine.Dispatch | text-engine-main/index.js:93-114 | With no choices in force, or a number outside 1..count, an error is printed and nothing changes. Otherwise choice n-1 runs |
| TextEngine.Read | text-engine-main/index.js:77-86 | A line reads as blank exactly when it is all white space. Otherwise the reading is the trimmed text and its `parseInt` value |
| TextEngine.Step | text-engine-main/index.js:80-114 | A blank reading prints nothing and changes nothing. Other text is echoed first. NaN then prints an error and changes nothing; a number goes on to validation |
| TextEngine.ApplyInput | text-engine-main/index.js:76-115 | A line produces output exactly when it is not all white space, and that output starts with the echo of the trimmed line. A blank line leaves the engine unchanged |
| TextEngine.SelectsByReading | text-engine-main/index.js:86-103 | A line selects choice n exactly when its reading is the number n within 1..count |
| TextEngine.StepRunsOnlySelected | text-engine-main/index.js:86-114 | A handler runs exactly when the reading selects an offered choice. Otherwise the engine is unchanged |
| TextEngine.RunsOnlySelected | text-engine-main/index.js:76-114 | The same for raw input lines: a handler runs, and the state can change, only for a line whose trimmed text parses to an offered choice number |
| TextEngine.SelectedChoiceRuns | text-engine-main/index.js:99-111 | A line that selects choice n is echoed and then runs choice n-1 |
| TextEngine.ResetVisits | text-engine-main/index.js:132-138 | Every room keeps its place and contents, with its visit counter at zero |
| TextEngine.LoadDisk | text-engine-main/index.js:118-153 | All visit counters are zero and the banner comes first. A defined starting room is entered; an undefined one prints an error. The choices in force are not cleared |
| ClosedDisk.FindInLoaded | text-engine-main/index.js:132-138 | Resetting the visit counters does not move any room |
| ClosedDisk.OfferedOnDisk | text-engine-main/index.js:62-69 | On a disk whose rooms all offer n choices, the engine in a room has n choices in force |
| ClosedDisk.EnterKeepsDisk | text-engine-main/index.js:44-73 | On a disk whose rooms all offer at least one choice, entering a room of the disk makes it the current room with its choices in force, and does not report a missing room |
| ClosedDisk.ChoiceKeepsDisk | text-engine-main/index.js:105-114 | On a closed disk whose rooms all offer at least one choice, running a choice of the current room keeps the engine on the disk and never reports a missing room |
| ClosedDisk.StepKeepsDisk | text-engine-main/index.js:76-115 | On such a disk, any line keeps the engine on the disk and never reports a missing room |
| ClosedDisk.SessionKeepsDisk | text-engine-main/index.js:76-115 | The same holds for any sequence of input lines |
| StoryDisk.StartRoomDefined | text-engine-main/game-disks/unlimited-adventure.js:12-16 | The starting room "office" exists and is the first room |
| StoryDisk.IdsDistinct | text-engine-main/game-disks/unlimited-adventure.js:16-334 | The six room ids are pairwise distinct |
| StoryDisk.FourChoicesEverywhere | text-engine-main/game-disks/unlimited-adventure.js:32-475 | Every room offers exactly four choices |
| StoryDisk.Positions | text-engine-main/game-disks/unlimited-adventure.js:16-334 | Looking up each room id finds the room at its own position |
| StoryDisk.TransitionsResolveForward | text-engine-main/game-disks/unlimited-adventure.js:49-327 | Every room a choice enters exists, and it lies further down the room list than the room offering the choice |
| StoryDisk.FinalChoiceTerminal | text-engine-main/game-disks/unlimited-adventure.js:334-475 | No choice of the final room enters another room |
| StoryDisk.PathIncreases | text-engine-main/game-disks/unlimited-adventure.js:49-327 | Along any walk through the room graph the room positions strictly increase |
| StoryDisk.Acyclic | text-engine-main/game-disks/unlimited-adventure.js:49-327 | No walk of one step or more returns to its starting room |
| StoryDisk.FinalChoiceReachable | text-engine-main/game-disks/unlimited-adventure.js:56-310 | office, floodedDistrict, serverHub, finalChoice is a walk of the graph |
| StoryDisk.StoryClosed | text-engine-main/game-disks/unlimited-adventure.js:49-327 | Every transition of the disk resolves, and every room offers four choices |
| StoryDisk.LoadStory | text-engine-main/index.js:118-153 | Loading the story, from any engine state, enters the office with its choices in force and reports no missing room |
| StoryDisk.EveryChoiceAccepted | text-engine-main/index.js:94-111 | In every room of the story, each number from 1 to 4 selects a choice, and that choice's narration follows the echo |
| StoryDisk.NeverRoomNotFound | text-engine-main/index.js:47-49 | On the story disk "Room not found" is never printed, neither on loading nor for any input lines afterwards |
| Meters.AvgRange | Dirk-Shoemaker-Audio-Visualizer-2.0/visualizer.js:1154-1159 | The range is clamped to the array and an empty range gives 0. Otherwise the result times the range length is the sum of the range, so it lies between any bounds of the entries and within 0..255 |
| Meters.SumBounds | Dirk-Shoemaker-Audio-Visualizer-2.0/visualizer.js:1157 | A sum of n entries within [min, max] lies within [n*min, n*max] |
| Meters.AvgRangeEnd | Dirk-Shoemaker-Audio-Visualizer-2.0/visualizer.js:1160-1164 | A clamped count of 0 gives NaN (0/0) and a negative count gives 0. Otherwise the result times the count is the sum of the last count entries, and it lies within 0..255 |
| Meters.PeakHold | Dirk-Shoemaker-Audio-Visualizer-2.0/visualizer.js:2777-2794 | A level above the peak becomes the peak and restarts the hold. A running hold counts down with the peak unchanged. A spent hold decays the peak |
| Meters.PeakHoldBounds | Dirk-Shoemaker-Audio-Visualizer-2.0/visualizer.js:2777-2794 | The hold stays within 0..hold frames. For non-negative levels the peak stays non-negative and never exceeds the larger of the old peak and the level |
| Meters.PeakIsHeld | Dirk-Shoemaker-Audio-Visualizer-2.0/visualizer.js:2777-2794 | While the levels stay at or below the peak, the peak is held for the remaining hold frames and decays on the next |
| Meters.VuMeterHold | Dirk-Shoemaker-Audio-Visualizer-2.0/visualizer.js:2777-2794 | A new VU peak is held for 30 frames and then drops by 5% |
| Meters.SpectrumPeakHold | Dirk-Shoemaker-Audio-Visualizer-2.0/visualizer.js:2903-2911 | A new spectrum peak is held for 20 frames and then drops by 8% |
| TimeFormat.FloorDivision | Dirk-Shoemaker-Audio-Visualizer-2.0/visualizer.js:63-64 | For a non-negative time, the minutes and seconds computed on the real value are those of its whole seconds |
| TimeFormat.FormatTime | Dirk-Shoemaker-Audio-Visualizer-2.0/visualizer.js:61-66 | NaN shows the clock of zero seconds, "00:00". A non-negative time shows the clock of its whole seconds; fractions are dropped, not rounded |
| TimeFormat.Pad2Value | Dirk-Shoemaker-Audio-Visualizer-2.0/visualizer.js:65 | A number below 100 padded to two places is two digits that read back as the number |
| TimeFormat.ClockRoundTrip | Dirk-Shoemaker-Audio-Visualizer-2.0/visualizer.js:61-66 | Below 100 minutes the clock is exactly `MM:SS`. Reading it back (minutes times 60 plus seconds, with seconds below 60) gives the number of seconds |
| TimeFormat.ClockWidens | Dirk-Shoemaker-Audio-Visualizer-2.0/visualizer.js:63-65 | From 100 minutes on, the clock is longer than five characters |
| Particles.AllActive | Dirk-Shoemaker-Audio-Visualizer-2.0/visualizer.js:1087-1093 | The pool has no dead particle exactly when every particle is counted live |
| Particles.ReviveCounts | Dirk-Shoemaker-Audio-Visualizer-2.0/visualizer.js:1088-1089 | Resetting a dead particle raises the live count by one |
| Particles.FirstInactive | Dirk-Shoemaker-Audio-Visualizer-2.0/visualizer.js:1087-1093 | The search finds the first dead particle, or reports that all are live |
| Particles.Emit | Dirk-Shoemaker-Audio-Visualizer-2.0/visualizer.js:1085-1097 | One emission makes exactly one more particle live and leaves live particles alone. The particle it changes is the first dead one: every particle before it was live. The list grows only when every particle was live, and the new particle has the given life |
| Particles.SpawnParticles | Dirk-Shoemaker-Audio-Visualizer-2.0/visualizer.js:1076-1098 | Nothing changes at the cap of 75. Otherwise the live count grows by exactly the burst size and the list never passes 75. Live particles are untouched. Dead particles are reused from the front, so a changed slot has only live particles before it, and the list grows only after every dead particle is reused. Each new particle has one of the drawn lives |
| Particles.Sparkle | Dirk-Shoemaker-Audio-Visualizer-2.0/visualizer.js:2558-2581 | A sparkle that fires below the cap makes one more particle live with the drawn life, in the first dead slot or at the end; otherwise the pool is unchanged. The list never passes the cap |
| Particles.Update | Dirk-Shoemaker-Audio-Visualizer-2.0/visualizer.js:1045-1064 | An update takes one frame off the life and keeps the full life. The particle stays live exactly when it was live with more than one frame left |
| Particles.Age | Dirk-Shoemaker-Audio-Visualizer-2.0/visualizer.js:2583-2590 | The update loop leaves a dead particle as it is, never revives one, and keeps alive a live particle with more than one frame left |
| Particles.Lifetime | Dirk-Shoemaker-Audio-Visualizer-2.0/visualizer.js:1063-1064 | A live particle with life L is live after n frames exactly when L exceeds n, and while live it has lost one life per frame |
| Particles.DeadStaysDead | Dirk-Shoemaker-Audio-Visualizer-2.0/visualizer.js:2583-2590 | Ageing never revives a dead particle |
| Particles.AgePoolNeverRevives | Dirk-Shoemaker-Audio-Visualizer-2.0/visualizer.js:2583-2590 | The update loop keeps the list's length, never raises the live count, and leaves dead particles untouched |
| Themes.IndexOf | Dirk-Shoemaker-Audio-Visualizer-2.0/visualizer.js:348 | `indexOf` gives the first position of the name, or -1 exactly when it is absent |
| Themes.ApplyThemeAsWritten | Dirk-Shoemaker-Audio-Visualizer-2.0/visualizer.js:336-352 | A name the theme object does not find changes nothing. A found name becomes current; that includes names inherited from `Object.prototype`, such as "toString". For a real theme the HUD scheme becomes its position among the theme names when that is below 5 (blue, at 5, leaves it alone). Any other name leaves the HUD alone, and a valid scheme index stays valid |
| Themes.InheritedNameSetsTheme | Dirk-Shoemaker-Audio-Visualizer-2.0/visualizer.js:336-340 | A name inherited from `Object.prototype` becomes the current theme and leaves the HUD scheme alone |
| Themes.PurpleShowsGreen | Dirk-Shoemaker-Audio-Visualizer-2.0/visualizer.js:288-384 | As written, the purple theme selects the HUD scheme named Green, which is not its colour |
| Themes.ApplyTheme | Dirk-Shoemaker-Audio-Visualizer-2.0/visualizer.js:336-352 | Corrected: a real theme selects the HUD scheme of its own colour, or leaves the HUD alone when no scheme has its colour. A name not found changes nothing, an inherited name only becomes current, and a valid scheme index stays valid |
| Themes.ThemesFindTheirColour | Dirk-Shoemaker-Audio-Visualizer-2.0/visualizer.js:377-384 | Corrected: cyan selects the Cyan HUD scheme, purple Purple, green Green, red Red and gold Amber. Blue, which has no scheme of its colour, leaves the HUD alone |
| Themes.SchemeKeyIff | Dirk-Shoemaker-Audio-Visualizer-2.0/visualizer.js:714 | The string test admits exactly the keys that start with a digit from 1 to 5, where one starting with 5 must be "5" itself |
| Themes.PressKey | Dirk-Shoemaker-Audio-Visualizer-2.0/visualizer.js:713-716 | A key that fails the test leaves the display alone, and no key changes the theme |
| Themes.DigitKeySelects | Dirk-Shoemaker-Audio-Visualizer-2.0/visualizer.js:713-716 | Keys 1 to 5 select schemes 0 to 4. Every other one-character key changes nothing, so a valid scheme stays valid |
| Themes.DigitKeyPressed | Dirk-Shoemaker-Audio-Visualizer-2.0/visualizer.js:713-716 | Pressing a digit key from 1 to 5 selects the scheme one below the digit and changes nothing else |
| Themes.AlwaysValid | Dirk-Shoemaker-Audio-Visualizer-2.0/visualizer.js:336-384 | Under the HUD rule as written and under the corrected one, no sequence of theme buttons and one-character keys takes the HUD scheme index outside the table |

## Left out

- Rendering, sound and dialogs are left out. This covers the spoke game's grid, sounds and `alert` calls; the engine's HTML and markdown rewriting, `clear` and input focus handling; and all of the visualizer's drawing, camera, audio analysis and DOM wiring. None of them decides any state that is modelled.
- Round outcomes in the spoke game are a `Verdict` value rather than alert dialogs. The start button is not modelled.
- Story disk handlers are arbitrary JavaScript that print prose and may call `enterRoom` after a `setTimeout` delay. Each handler is modelled by the room it enters, entered at once. The timing is left out, and so is the window in which a second input could arrive before the delayed room change.
- Room names, descriptions, narration and the stylesheet switch in the disk file are left out; they are prose and presentation.
- `loadDisk` accepts either a disk object or a factory function. The model takes the disk value that either one yields.
- The visit counter is only ever reset; nothing in the engine increments it.
- JavaScript numbers are exact here, so floating-point rounding is not modelled. This matters for `Math.floor(seconds / 60)` with sub-second fractions close to a minute boundary, for `parseInt` of more than 15 digits, and for the repeated 0.95 and 0.92 decay products.
- The `-0` that `0 / -n` gives in `avgRangeEnd` is modelled as 0.
- Particle position, heading, speed, size, hue and the cursor gravity field in `Particle.update` are left out. They affect drawing only.
- The adaptive particle limit (half the cap at low frame rate) applies to a different emitter, not to the pool rules modelled here.
- The other particle-like effects (alerts, shock waves, solar flares, trails, shooting stars) are left out. They are separate lists in the render loop.
- Themes.AlwaysValid: covers keys the browser reports as one character. A multi-character key starting with 1 to 4 (say "12") would pass the string test and select an index outside the table. Browsers report no such key, since named keys start with a letter.
- Themes.ApplyTheme: the CSS variables, waveform colour and theme button states that `applyTheme` also sets are not modelled.
- Particles.Lifetime: assumes, as a requirement, that a live particle has life left. This holds for every particle the code creates (life 50 to 120), but the model's life parameter is any real.
- TextEngine.LoadDisk: a disk without a `rooms` array is not modelled; every disk is a list of rooms. In the source `loadDisk` then skips the counter reset (text-engine-main/index.js:133-138), and entering the start room throws in `getRoom` (text-engine-main/index.js:40) instead of printing the missing-room message. The shipped disks all have rooms.
- `setup`, the keypress listener and the blur handler of the engine are not modelled; `applyInput` is modelled directly.

## Findings

| source | as written | input that shows it | evidently intended | confidence | as-written member | corrected member |
|---|---|---|---|---|---|---|
| Dirk-Shoemaker-Audio-Visualizer-2.0/visualizer.js:347-351 | The HUD scheme is the theme's position in the theme table (cyan, purple, green, red, gold, blue), used as an index into a HUD table in a different order (Cyan, Green, Amber, Purple, Red) | `applyTheme('purple')` selects the Green HUD scheme; green gives Amber, red gives Purple, gold gives Red | The comment says the HUD scheme is updated "to match", so each theme should select the HUD scheme of its own colour | medium; not executed | Themes.ApplyThemeAsWritten, Themes.PurpleShowsGreen | Themes.ApplyTheme, Themes.ThemesFindTheirColour |

`Themes.Run` and `Themes.AlwaysValid` take the HUD rule as a parameter, so the validity result covers the rule as written and the corrected one.

Three behaviours that look surprising are modelled as written, because nothing in the code suggests they are unintended. Two are in the spoke game:

- `moveToward` always shrinks the clockwise offset to the target. So it sometimes walks the longer way round (`SpokeGame.MoveTowardNotShortestArc`).
- `moveAway` grows the clockwise offset from the target, except from offset 9, where it steps to 8. From five to eight spokes clockwise of the target, that brings the token closer to the target around the ring (`SpokeGame.MoveAwayNotFurtherAlongRing`).

One is in the visualizer:

- `avgRangeEnd` divides by zero when the array is empty or the count is 0, and gives NaN (`Meters.AvgRangeEnd`).
