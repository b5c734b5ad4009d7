# MusicPlayer playlist and playback controller, in Dafny

This project models the core of a browser audio player (`app.js`): its
playlist, a circular doubly-linked list of song nodes with one `current`
cursor, and the playback controller that keeps three intent flags
(`isPlaying`, `isLooping`, `isMuted`) and sends commands to one audio
resource. It also models the `m:ss` time label.

- `Playlist` (playlist.dfy) holds the list as an arena. `nodes[i].next` and
  `nodes[i].prev` are positions in the same sequence. `current` is `None`
  exactly while the list is empty, which is JavaScript's `null`. A valid list
  keeps three things true. Every link is in range. `next` and `prev` undo
  each other. From the cursor, `|nodes|` steps forward come back to it
  without visiting any node twice, so all nodes lie on one cycle. `Order`
  reads that cycle forwards from the cursor. Most properties below are stated
  in terms of it.
- `Controller` (controller.dfy) holds the transitions as pure functions over a
  `Player` record. The audio resource is a record with the loaded `src`, the
  position `currentTime` in whole seconds, a `playing` flag and a `muted`
  flag. Assigning `src` reloads the media, as an HTML media element does:
  the position goes back to 0 and playback stops until the next `play()`.
- `TimeFormat` (time_format.dfy) holds `formatTime` on whole seconds.
  `ParseTime` is its inverse, and the two are proved to round-trip in both
  directions. The string functions (`Decimal` for `String(n)`, `PadStart`,
  `FormatTime`, `ParseTime`) only compute; lemmas beside them state what
  they compute.
- `Counting` (counting.dfy) holds pigeonhole facts on index sequences.
  `Wrappers` (wrappers.dfy) holds `Option`.

The random pick of the shuffle (`Math.random()`) is an index parameter
`k < N`. Every list operation assumes the list invariant `Valid`. The list's
own constructors establish it (`Empty`, `AddSong`, `Build`), and every
operation preserves it. Navigation on an empty list is not a no-op here: the
code dereferences `current` without a check (app.js:31, 35, 66, 122), so
`nextSong`, `prevSong`, `updateSongDetails` and the shuffle would throw. Those
operations require a non-empty list.
`playPauseSong`, `muteToggle` and the loop toggle never touch the list and
require nothing. `onAudioEnd` needs a non-empty list only when it is not
looping.

## Model

| member | source | states |
|---|---|---|
| Playlist.Empty | app.js:11-13 | a new list has no nodes and no cursor, and is valid |
| Playlist.AddSong | app.js:15-28 | on an empty list the new node becomes the cursor and links to itself both ways; otherwise the cursor stays, the new node sits between the old tail and the cursor (`current.prev` is the new node and the old tail's `next` is the new node), and every other link and every song's name and path are unchanged |
| Playlist.AddSongLinks | app.js:21-27 | after a splice the new node leads to the cursor and back to the old tail, the old tail leads to the new node, the cursor leads back to it, and every other node's `next` and `prev` are what they were |
| Playlist.AddSongInverse | app.js:21-27 | after a splice `next` and `prev` still undo each other at every node |
| Playlist.WalkAgreesUntil | app.js:21-27 | two arenas whose `next` links differ only at one node walk alike from the cursor until the walk reaches that node |
| Playlist.LapExtends | app.js:21-27 | when only the old tail's `next` changes, to a new node that leads back to the cursor, the lap from the cursor is the old lap followed by the new node, and it closes after one more step |
| Playlist.AddSongExtendsLap | app.js:21-27 | after a splice the lap from the cursor is the old lap with the new node at its end |
| Playlist.AddSongKeepsValid | app.js:15-28 | appending keeps the list valid (links in range, `next`/`prev` mutually inverse, one cycle through all nodes), leaves it non-empty, and puts the new node last in the lap from the cursor |
| Playlist.NextSong | app.js:30-32 | moving forward changes no link and keeps the list valid and non-empty |
| Playlist.NextSongRotates | app.js:30-32 | moving forward rotates the lap by one: the old second node leads and the old cursor comes last |
| Playlist.PrevSong | app.js:34-36 | moving back changes no link and keeps the list valid and non-empty |
| Playlist.PrevSongRotates | app.js:34-36 | moving back rotates the lap the other way: the old tail leads and the rest follow in their old order |
| Playlist.NextThenPrev | app.js:30-36 | a step forward followed by a step back restores the list exactly |
| Playlist.PrevThenNext | app.js:30-36 | a step back followed by a step forward restores the list exactly |
| Playlist.NextNWalks | app.js:30-32 | `k` steps forward put the cursor on the node `k` links ahead and change nothing else |
| Playlist.FullLap | app.js:30-32 | `N` steps forward on an `N`-node list come back to the starting node |
| Playlist.PrevIsLastOfLap | app.js:22 | the cursor's `prev`, the tail that `addSong` splices after, is the last node of the lap from the cursor |
| Playlist.CycleFromMember | app.js:10-37 | every node on the lap starts a full lap of its own, which is the cursor's lap rotated |
| Playlist.OrderIsPermutation | app.js:10-37 | the lap from the cursor lists every node exactly once |
| Playlist.NoEarlyReturn | app.js:121-126 | walking forward from the cursor does not come back to it before `N` steps |
| Playlist.CollectNodes | app.js:121-126 | the shuffle's do-while traversal stops, and returns every node exactly once, `N` in all, in lap order from the cursor |
| Playlist.Shuffle | app.js:120-128 | the cursor moves to the `k`-th collected node with links untouched and the list still valid; `k = 0` leaves the cursor where it was |
| Playlist.Build | app.js:39-46 | appending tracks one by one to an empty list gives a valid list with one node per track and the cursor on the first |
| Playlist.BuildHoldsTrack | app.js:39-46 | the `i`-th node of a built list holds the `i`-th appended song's name and path |
| Playlist.BuildOrder | app.js:39-46 | a built list reads in insertion order from the cursor |
| Playlist.BuildThenStep | app.js:39-46 | on a freshly built list, `k` forward steps land on the `k`-th appended song |
| Playlist.DemoLap | app.js:39-46 | on the seven-song start-up list the cursor starts on "Song 1", one step reaches "Song 2", and seven steps return to the start |
| TimeFormat.DecimalSpec | app.js:92 | a whole number prints as a canonical digit string (no leading zero) whose value is the number; one digit exactly below 10 |
| TimeFormat.DecimalOfValue | app.js:92 | every canonical digit string is the print of its own value, so printing is one-to-one onto canonical strings |
| TimeFormat.PadStartSpec | app.js:91 | padding yields the wider of the string and the width, ends with the string, and is filled with the pad character in front |
| TimeFormat.TwoDigitField | app.js:91 | the seconds field of any value below 60 is exactly two digits with that value |
| TimeFormat.SecondsFieldOfValue | app.js:91 | every two-digit field below 60 is the padded print of its own value |
| TimeFormat.FormatTimeIsLabel | app.js:89-93 | the label is canonical minutes, a colon, and exactly two digits; the minutes denote `seconds / 60` and the two digits denote `seconds % 60` |
| TimeFormat.FormatOfFields | app.js:89-93 | canonical minutes, a colon and a two-digit field below 60 are the label of the seconds they denote |
| TimeFormat.ParseFormat | app.js:89-93 | reading a label back gives the seconds it was made from |
| TimeFormat.FormatParse | app.js:89-93 | every well-shaped label is read back, and is the format of the seconds it denotes |
| TimeFormat.FormatTimeExample125 | app.js:89-93 | 125 seconds format as "2:05" |
| TimeFormat.FormatTimeExample59 | app.js:89-93 | 59 seconds format as "0:59" |
| TimeFormat.FormatTimeExample3600 | app.js:89-93 | 3600 seconds format as "60:00" |
| Controller.UpdateSongDetails | app.js:65-68 | the resource is loaded with the current song's path from position 0; the list, the flags and mute are unchanged |
| Controller.Init | app.js:61-68 | at start-up (flags at lines 61-63, the fresh `new Audio()` of line 48, the `updateSongDetails()` call of line 197) nothing is playing, looping or muted, the first song is loaded, and the player is consistent and in sync |
| Controller.PlayPauseSong | app.js:70-79 | the intent flips, and the resource ends paused exactly when the player was playing and playing otherwise; source, position, mute, list and other flags are unchanged |
| Controller.NextSong | app.js:104-110 | the list steps forward, and the new current song is loaded from 0 and playing with `isPlaying` set, whatever the prior state; mute and loop are unchanged |
| Controller.PrevSong | app.js:112-118 | the list steps back, and the new current song is loaded from 0 and playing with `isPlaying` set, whatever the prior state; mute and loop are unchanged |
| Controller.ShuffleSongs | app.js:120-133 | the cursor lands on the `k`-th node of the lap with links intact, and that song is loaded from 0 and playing with `isPlaying` set; mute and loop are unchanged, so a consistent player stays consistent, and intent and resource agree afterwards |
| Controller.OnAudioEnd | app.js:95-102 | when looping, the resource rewinds to 0 and plays with song, source, list and intent unchanged; otherwise the result is exactly that of `NextSong` |
| Controller.MuteToggle | app.js:135-144 | the mute intent flips and the resource's mute equals it afterwards; nothing else changes |
| Controller.LoopToggle | app.js:166-170 | the loop intent flips; the resource, the list and the other flags are unchanged |
| Controller.KeysUndo | app.js:174-191 | the right arrow then the left arrow, or the reverse, returns the list to the same song; two spaces restore the player when intent and resource agree |
| Controller.KeysKeepConsistent | app.js:174-191 | whatever key is pressed, the list stays valid, the resource holds the current song muted as intended, and intent stays in step with the resource |
| Controller.TransitionsKeepConsistent | app.js:65-144 | every transition function (play/pause, next, previous, end of song, mute, loop) keeps the list valid and non-empty, the resource loaded with the current song's path, and the resource's mute equal to the intent |
| Controller.TransitionsKeepInSync | app.js:70-144 | play/pause, next, previous, mute and loop keep `isPlaying` equal to what the resource is doing, and so does the end-of-song handler while playing |
| Controller.PlayPauseTwice | app.js:70-79 | pressing play/pause twice restores the player when intent and resource agree |
| Controller.MuteTwice | app.js:135-144 | pressing mute twice restores the player when flag and resource agree |
| Controller.LoopTwice | app.js:166-170 | pressing loop twice restores the player |
| Controller.NextThenPrevSong | app.js:104-118 | next then previous, or previous then next, returns the list to the same song |
| Controller.PlayNextLap | app.js:104-110 | after `k > 0` presses of next, the list has stepped `k` times and the song under the cursor is loaded from 0 and playing |
| Controller.PlayNextFullLap | app.js:104-110 | `N` presses of next on an `N`-song list return to the starting song and play it |

## Left out

- DOM lookups, the song-name text (app.js:66), icon swapping and CSS class toggling are presentation only.
- Registering event listeners (app.js:146-164, 194) is left out. The key-to-action mapping is modelled as `HandleKey`.
- `updateProgress` (app.js:81-87) and the `loadedmetadata` label (app.js:148-150) are left out. The first divides floating-point time by duration; the second formats the floating-point `audio.duration`. Both labels use `FormatTime`.
- Seeking (app.js:152-154) and volume (app.js:156-158) scale floating-point slider values, so they are left out.
- TimeFormat.FormatTime: takes whole seconds, because `Math.floor` of fractional seconds is floating point. The label of `s` real seconds is the label of their floor. Seconds are also assumed finite and below 2^53: above that a JavaScript number is no longer an exact integer, from 10^21 `String` prints exponent notation (`"1e+21"`), and an `Infinity` duration prints `"Infinity:NaN"`.
- Playlist.Shuffle: does not state that the pick is uniform, because `Math.random()` becomes the index argument `k`.
- Controller.ShuffleSongs: does not state that the pick is uniform, for the same reason.
- Audio decoding and playback are left out. The resource is a record, and the model does not describe what the browser itself does to it when a song ends.
- Behaviour on an empty list is not modelled as a no-op. The code would dereference `null` there, so the list operations require a non-empty list.
