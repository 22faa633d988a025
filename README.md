# Video player bookkeeping, in Dafny

This project models the in-memory core of a command-line video player
simulator: a read-only catalog of videos, one playing video with a pause
flag, user playlists looked up by lower-cased name, and a flag (with a
reason) per video that bars it from playback, from playlists and from
search results.

Modules, one per concern:

- `Sequences` — duplicate-free sequences, first positions, and Python's
  `list.remove` (`RemoveFirst`).
- `Text` — ASCII lower-casing (standing for `str.lower()`) and the
  substring test behind `term in title`.
- `Library` — the `Video` record, lookup by id (`get_video`), the flag
  test, and the catalog filter `Select` behind random play and both searches.
- `Playlists` — the `Playlist` class (`src/video_playlist.py`) with a
  no-duplicates invariant, and the pure `Apply`/`ApplyAll` description of
  its edits.
- `Player` — the `VideoPlayer` class (`src/video_player.py`). Its fields
  are the catalog, the flag map, the playing video, the pause flag and the
  playlist map. Every operation returns the messages it prints as a
  sequence of `Msg` values, in printing order.
- `Scenarios` — client methods that drive a fresh player through short
  command sequences using only the operations' contracts.

Choices of representation:

- Each video's mutable `flag` is held in the player's map from id to
  reason. A video counts as flagged when its reason is present and
  non-empty. This matches the source's truth test on `video.flag`, for
  which an empty string is false.
- Playlists hold video ids. Catalog ids are unique, so comparing ids is
  the same as comparing the shared `Video` objects.
- `VideoPlayer.Valid()` requires that keys are the lower-cased display
  names, that playlist members are catalog ids, and that no two keys share
  a playlist object. It also requires that the playing video is an
  unflagged catalog video. It does not require that `paused` implies a
  playing video, because that does not hold (see below).

Where the code departs from a clean play/pause/stop state machine, the
model follows the code:

- `stop_video` does not clear `_is_paused` (src/video_player.py:52-54).
  `StopVideo` keeps `paused`.
- `play_random_video` prints the stop notice before checking for
  candidates. When no unflagged video exists it keeps the playing video.
  It never resets `_is_paused`, so a randomly chosen video can start out
  paused (`Scenarios.RandomKeepsPause`).
- `flag_video` clears `_currently_playing` but not `_is_paused`.
- So the player can be paused with nothing playing
  (`Scenarios.PauseAfterStop`). `pause_video` and `continue_video` then
  read the title of `None` and raise before changing any field. The model
  reports this as the `NoneDereference` message with no state change.
- Answering the search prompt with a valid number only prints
  "Playing video"; `_currently_playing` does not change.
- Flagging with an empty reason records it, but the video stays
  unflagged.

## Model

| member | source | states |
|---|---|---|
| `Sequences.RemoveFirst` | src/video_playlist.py:15 | `list.remove` shortens the list by exactly one element |
| `Sequences.RemoveFirstSubset` | src/video_playlist.py:15 | `list.remove` brings no new element into the list |
| `Sequences.RemoveFirstMultiset` | src/video_playlist.py:15 | `list.remove` takes exactly one copy of the video out of the list's multiset of elements and leaves all others |
| `Sequences.RemoveFirstSplices` | src/video_playlist.py:13-16 | removal cuts the list at the first occurrence; the other videos keep their relative order |
| `Sequences.RemoveFirstKeepsNoDuplicates` | src/video_playlist.py:13-16 | in a duplicate-free list, removal deletes the only copy, keeps every other video and introduces no duplicate |
| `Sequences.RemoveFirstOfAppended` | src/video_playlist.py:15-24 | removing a freshly appended video gives back the list before the append |
| `Text.Lower` | src/video_player.py:109 | ASCII lower-casing, standing for `str.lower()`, keeps the length of the string |
| `Text.LowerLowers` | src/video_player.py:220 | the lower-cased string holds no upper-case ASCII letter and keeps every character that is not one |
| `Text.IsSubstring` | src/video_player.py:220 | the `in` test on strings: a found term is no longer than the title, and a prefix is always found |
| `Text.IsSubstringAt` | src/video_player.py:220 | the substring test holds exactly when the term occurs at some position of the title |
| `Text.FirstCharAbsent` | src/video_player.py:220 | a term whose first character does not appear in the title is not found in it |
| `Library.Lookup` | src/video_player.py:123-124 | `get_video` returns a catalog video with the given id, or nothing when no catalog video has it |
| `Library.LookupFindsMember` | src/video_player.py:276-278 | with unique ids, looking up a catalog video's own id yields that video, so comparing the playing video with the looked-up one compares ids |
| `Library.UniqueIdsNoDuplicates` | src/video_player.py:37-38 | a catalog with unique ids lists no video twice, which the order and no-duplicates facts about the filters require |
| `Library.IsFlagged` | src/video_player.py:39 | the truth test `if video.flag`: a flagged video always has a recorded reason, and an empty reason does not flag |
| `Library.FlagUpdate` | src/video_player.py:281-282 | `set_flag` flags the video exactly when the reason is non-empty, and leaves every other video's flag as it was |
| `Library.Matches` | src/video_player.py:220 | the title test is the lower-cased substring test, so a title matches only a term no longer than itself; random play accepts every video; the tag test of line 250 is membership in the tags |
| `Library.Select` | src/video_player.py:64 | the comprehension and search loops keep at most the catalog's videos, each of them matching and unflagged |
| `Library.SelectMembers` | src/video_player.py:64 | a video is offered by random play or a search exactly when it is in the catalog, matches the query and is not flagged |
| `Library.SelectNoDuplicates` | src/video_player.py:219-226 | over a catalog without repeats, each result appears once |
| `Library.SelectInCatalogOrder` | src/video_player.py:219-226 | results are catalog videos listed in catalog order, so result k is the k-th offered video |
| `Library.SelectAppend` | src/video_player.py:219-226 | one more catalog video extends the results by that video exactly when it matches and is unflagged |
| `Playlists.ApplyKeepsNoDuplicates` | src/video_playlist.py:10-25 | no single add, remove or clear introduces a duplicate |
| `Playlists.ApplyAllKeepsNoDuplicates` | src/video_playlist.py:10-25 | a playlist never holds a video twice after any sequence of add, remove and clear |
| `Playlists.RemoveUndoesAdd` | src/video_playlist.py:13-25 | adding an absent video and then removing it restores the list |
| `Playlists.RemoveDeletesOnlyCopy` | src/video_playlist.py:13-18 | after removal from a duplicate-free list the video is absent and all other videos remain |
| `Playlists.Apply` | src/video_playlist.py:10-25 | one add, remove or clear of a playlist; the edit brings in no video other than the one it adds, and grows the list by at most one |
| `Playlists.ApplyAll` | src/video_playlist.py:10-25 | a run of edits; afterwards the list holds only videos it held before or that some edit adds |
| `Playlists.Playlist.constructor` | src/video_playlist.py:6-8 | a new playlist keeps the given name and has no videos |
| `Playlists.Playlist.Clear` | src/video_playlist.py:10-11 | the list becomes empty; the name is a constant and stays |
| `Playlists.Playlist.Remove` | src/video_playlist.py:13-18 | returns whether the video was present; if so the list loses that one element with order kept, otherwise it is unchanged; no duplicates afterwards |
| `Playlists.Playlist.Add` | src/video_playlist.py:20-25 | returns false and keeps the list when the video is present; otherwise returns true and the list is the old one plus the video at the end |
| `Playlists.Playlist.GetVideos` | src/video_playlist.py:27-28 | returns the stored list, which holds no video twice |
| `Player.StopNotice` | src/video_player.py:43-44 | exactly one stop line, for the video that was playing, when one was; none otherwise |
| `Player.SearchReport` | src/video_player.py:228-238 | one line of results, or of none; a second line exactly when there are results and the answer is a number from 1 to their count, and it announces the answer-th result |
| `Player.VideoPlayer.RandomCandidateWhilePlaying` | src/video_player.py:61-66 | while a video plays, random play always has a candidate, so a stop notice is never followed by "no videos available" |
| `Player.VideoPlayer.constructor` | src/video_player.py:11-15 | a new player has nothing playing, is not paused, has no playlists and no flags |
| `Player.VideoPlayer.PlayVideo` | src/video_player.py:31-48 | an unknown or flagged id changes nothing and reports why; otherwise the video plays unpaused, and a stop notice for the previous video, even the same one, comes before the play notice |
| `Player.VideoPlayer.StopVideo` | src/video_player.py:50-56 | nothing plays afterwards; the pause flag is kept; reports the stop or that nothing was playing |
| `Player.VideoPlayer.PlayRandomVideo` | src/video_player.py:59-70 | stop notice first if a video was playing; with no unflagged video the playing video is kept and none is reported, otherwise some unflagged catalog video plays; the pause flag is never touched |
| `Player.VideoPlayer.PauseVideo` | src/video_player.py:72-80 | pauses a playing video; when already paused nothing changes and only the message differs; paused with nothing playing gives the error outcome |
| `Player.VideoPlayer.ContinueVideo` | src/video_player.py:82-90 | clears the pause flag only when it was set and a video plays; otherwise no field changes and the message says why |
| `Player.VideoPlayer.CreatePlaylist` | src/video_player.py:103-113 | adds a fresh empty playlist with the given display name under the lower-cased name if that key is absent, keeping every other playlist; otherwise nothing changes |
| `Player.VideoPlayer.AddToPlaylist` | src/video_player.py:115-135 | a missing playlist, unknown id or flagged video changes no playlist; otherwise only the named playlist changes, by an add that refuses a video already present |
| `Player.VideoPlayer.RemoveFromPlaylist` | src/video_player.py:166-184 | a missing playlist or unknown id changes nothing; otherwise only the named playlist changes, by removing the video if present, flagged or not |
| `Player.VideoPlayer.ClearPlaylist` | src/video_player.py:186-196 | empties only the named playlist and keeps its name; a missing playlist changes nothing |
| `Player.VideoPlayer.DeletePlaylist` | src/video_player.py:198-208 | removes exactly the lower-cased key and nothing else |
| `Player.VideoPlayer.Search` | src/video_player.py:216-238 | the loop collects exactly the filter's results; no results give the no-results outcome; a valid answer only announces the chosen result |
| `Player.VideoPlayer.SearchVideos` | src/video_player.py:210-238 | the numbered results are the unflagged videos whose lower-cased title contains the lower-cased term, in catalog order |
| `Player.VideoPlayer.SearchVideosTag` | src/video_player.py:240-267 | the numbered results are the unflagged videos whose tags contain the tag, in catalog order |
| `Player.VideoPlayer.FlagVideo` | src/video_player.py:269-287 | an unknown id changes nothing; the playing video is stopped first, with the pause flag kept; an already-flagged video keeps its reason; only that video's flag changes and no playlist changes |
| `Player.VideoPlayer.AllowVideo` | src/video_player.py:289-303 | an unknown id changes nothing; the flag is cleared only if it was set; nothing else changes |
| `Scenarios.PauseAfterStop` | src/video_player.py:50-80 | play, pause, stop leaves the player paused with nothing playing, and a further pause hits the error outcome |
| `Scenarios.ReplaySameVideo` | src/video_player.py:42-46 | playing the playing video again prints its stop notice, then its play notice |
| `Scenarios.FlagPlayingThenPlay` | src/video_player.py:276-283 | flagging the playing video stops it and records the reason; playing it afterwards is refused with that reason |
| `Scenarios.AddTwice` | src/video_player.py:122-131 | a video is added once; a second add, under a differently cased name, is refused as already added |
| `Scenarios.RandomOnEmptyCatalog` | src/video_player.py:64-66 | with an empty catalog random play reports that no video is available |
| `Scenarios.RandomKeepsPause` | src/video_player.py:59-70 | random play while paused keeps the pause flag set |
| `Scenarios.SearchCat` | src/video_player.py:216-238 | searching "cat" over "Cat Video" and "Dog Video" lists only the cat video; answer 1 announces it, answer 5 or a non-number adds nothing |
| `Scenarios.TitleSearchForCat` | src/video_player.py:219-226 | the title filter matches "Cat Video" and not "Dog Video" for the term "cat" |

## Left out

- Printed text: outcomes are `Msg` kinds carrying the values that vary. The flagged-video refusal in `add_to_playlist` names a fixed placeholder playlist instead of the given one (src/video_player.py:126); the model keeps this only as a message kind without a name. `show_playlist` has the same quirk for a missing playlist (src/video_player.py:164); it is noted here only, since `show_playlist` is not modelled.
- Display-only operations `number_of_videos`, `show_all_videos`, `show_playing`, `show_all_playlists` and `show_playlist`: they only format and sort for printing and change no state.
- The search prompt's `input()` and `int()` parsing: the answer is a parameter, `None` standing for text that is not an integer.
- Player.VideoPlayer.PlayRandomVideo: promises some unflagged catalog video, not a uniformly random one, because the random source is outside the model.
- The video library: `src/video_library.py` and `src/video.py` are not part of this model. The catalog is a constructor parameter with unique ids and no initial flags; `get_video` is `Library.Lookup`; `set_flag` is an update of the flag map.
- What the command loop does with the error that `pause_video` and `continue_video` raise when paused with nothing playing: the model stops at the `NoneDereference` outcome.
- Full Unicode `str.lower()`: `Text.Lower` lower-cases ASCII letters only.
