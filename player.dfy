/**
 * The video player: which video plays, whether it is paused, the playlists
 * by lower-cased name, and the flag reason of each catalog video. Every
 * operation reports its outcome as a sequence of messages, in the order the
 * player prints them; the message kinds stand for the printed lines.
 */
module Player {
  import opened Text
  import opened Library
  import opened Playlists

  /** The reason recorded when a video is flagged without one. */
  const NOT_SUPPLIED := "Not supplied"

  datatype Msg =
    | Playing(video: Video)
    | Stopping(video: Video)
    | CannotPlayFlagged(reason: string)
    | CannotPlayMissing
    | CannotStopNothing
    | NoVideosAvailable
    | Pausing(video: Video)
    | AlreadyPaused(video: Video)
    | CannotPauseNothing
    | Continuing(video: Video)
    | CannotContinueNothing
    | CannotContinueNotPaused
      // pause or continue read the title of a missing video: the player raises an error
    | NoneDereference
    | PlaylistCreated(name: string)
    | PlaylistAlreadyExists
    | AddedToPlaylist(name: string, video: Video)
      // this line names no playlist: the player prints a fixed placeholder name
    | CannotAddFlagged(reason: string)
    | CannotAddAlreadyAdded(name: string)
    | CannotAddMissingVideo(name: string)
    | CannotAddMissingPlaylist(name: string)
    | RemovedFromPlaylist(name: string, video: Video)
    | CannotRemoveNotInPlaylist(name: string)
    | CannotRemoveMissingVideo(name: string)
    | CannotRemoveMissingPlaylist(name: string)
    | PlaylistCleared(name: string)
    | CannotClearMissingPlaylist(name: string)
    | PlaylistDeleted(name: string)
    | CannotDeleteMissingPlaylist(name: string)
      // the numbered list: line k shows results[k - 1]; then the prompt
    | SearchResults(term: string, results: seq<Video>)
    | NoSearchResults(term: string)
    | FlagSet(video: Video, reason: string)
    | CannotFlagAlreadyFlagged
    | CannotFlagMissing
    | FlagRemoved(video: Video)
    | CannotAllowNotFlagged
    | CannotAllowMissing

  /** The stop notice printed before a new video starts, if one was playing. */
  function StopNotice(current: Option<Video>): (r: seq<Msg>)
    ensures |r| == (if current.Some? then 1 else 0)
    ensures forall m :: m in r ==> m.Stopping? && current == Some(m.video)
  {
    if current.Some? then [Stopping(current.value)] else []
  }

  /**
   * What a search prints: the numbered results, or that there are none;
   * then, if the answer to the prompt is a number between 1 and the result
   * count, the announcement of that result (nothing starts playing).
   */
  function SearchReport(term: string, results: seq<Video>, answer: Option<int>): (r: seq<Msg>)
    ensures 1 <= |r| <= 2
    ensures r[0] == if results == [] then NoSearchResults(term) else SearchResults(term, results)
    ensures |r| == 2 <==> results != [] && answer.Some? && 1 <= answer.value <= |results|
    ensures |r| == 2 ==> r[1] == Playing(results[answer.value - 1])
  {
    if results == [] then [NoSearchResults(term)]
    else
      [SearchResults(term, results)] +
      (if answer.Some? && 1 <= answer.value <= |results| then [Playing(results[answer.value - 1])] else [])
  }

  /** A playlist as the player's state holds it: display name and video ids. */
  datatype PlaylistView = PlaylistView(name: string, videos: seq<VideoId>)

  class VideoPlayer {
    const catalog: seq<Video>
    var flags: map<VideoId, string>
    var playing: Option<Video>
    var paused: bool
    var playlists: map<string, Playlist>

    /**
     * The catalog has unique ids, the playing video is an unflagged catalog
     * video, every playlist is stored under its lower-cased name, holds catalog
     * videos only and no video twice, and no two names share a playlist.
     * Note what is NOT here: `paused` may be true while nothing plays.
     */
    ghost predicate Valid()
      reads this, playlists.Values
    {
      && UniqueIds(catalog)
      && (playing.Some? ==> playing.value in catalog && !IsFlagged(flags, playing.value.id))
      && (forall key | key in playlists ::
            && playlists[key].Valid()
            && key == Lower(playlists[key].name)
            && forall id | id in playlists[key].videos :: Lookup(catalog, id).Some?)
      && (forall k1, k2 | k1 in playlists && k2 in playlists && k1 != k2 :: playlists[k1] != playlists[k2])
    }

    /** The playlists' contents, by key. */
    ghost function Shelf(): map<string, PlaylistView>
      reads this, playlists.Values
    {
      map key | key in playlists :: PlaylistView(playlists[key].name, playlists[key].videos)
    }

    /** A player over a loaded catalog: nothing playing, nothing flagged, no playlists. */
    constructor (catalog: seq<Video>)
      requires UniqueIds(catalog)
      ensures Valid()
      ensures this.catalog == catalog && flags == map[] && playing == None && !paused && playlists == map[]
    {
      this.catalog := catalog;
      flags := map[];
      playing := None;
      paused := false;
      playlists := map[];
    }

    /**
     * While a video plays there is always a random candidate: the playing
     * video itself is an unflagged catalog video. So random play never
     * prints a stop notice followed by "no videos available".
     */
    lemma RandomCandidateWhilePlaying()
      requires Valid() && playing.Some?
      ensures Select(catalog, flags, AnyVideo) != []
    {
      SelectMembers(catalog, flags, AnyVideo);
    }

    /** Plays the video with this id, unless it is missing or flagged. */
    method PlayVideo(id: VideoId) returns (msgs: seq<Msg>)
      requires Valid()
      modifies this
      ensures Valid()
      ensures flags == old(flags) && playlists == old(playlists)
      ensures Lookup(catalog, id).None? ==>
                playing == old(playing) && paused == old(paused) && msgs == [CannotPlayMissing]
      ensures Lookup(catalog, id).Some? && IsFlagged(flags, id) ==>
                playing == old(playing) && paused == old(paused) && msgs == [CannotPlayFlagged(flags[id])]
      ensures Lookup(catalog, id).Some? && !IsFlagged(flags, id) ==>
                && playing == Lookup(catalog, id) && !paused
                && msgs == StopNotice(old(playing)) + [Playing(Lookup(catalog, id).value)]
    {
      var i := 0;
      while i < |catalog|
        invariant 0 <= i <= |catalog|
        invariant Lookup(catalog[i..], id) == Lookup(catalog, id)
      {
        var video := catalog[i];
        if video.id == id {
          if IsFlagged(flags, id) {
            msgs := [CannotPlayFlagged(flags[id])];
          } else {
            paused := false;
            msgs := StopNotice(playing);
            playing := Some(video);
            msgs := msgs + [Playing(video)];
          }
          return;
        }
        assert catalog[i..][1..] == catalog[i + 1..];
        i := i + 1;
      }
      msgs := [CannotPlayMissing];
    }

    /** Stops the playing video. The pause flag is left as it was. */
    method StopVideo() returns (msgs: seq<Msg>)
      requires Valid()
      modifies this
      ensures Valid()
      ensures flags == old(flags) && playlists == old(playlists) && paused == old(paused)
      ensures playing == None
      ensures msgs == if old(playing).Some? then [Stopping(old(playing).value)] else [CannotStopNothing]
    {
      if playing.Some? {
        msgs := [Stopping(playing.value)];
        playing := None;
      } else {
        msgs := [CannotStopNothing];
      }
    }

    /**
     * Announces the stop of the playing video, then plays some unflagged
     * video. When every video is flagged the playing video is kept. The pause
     * flag is never touched.
     */
    method PlayRandomVideo() returns (msgs: seq<Msg>)
      requires Valid()
      modifies this
      ensures Valid()
      ensures flags == old(flags) && playlists == old(playlists) && paused == old(paused)
      ensures Select(catalog, flags, AnyVideo) == [] ==>
                playing == old(playing) && msgs == StopNotice(old(playing)) + [NoVideosAvailable]
      ensures Select(catalog, flags, AnyVideo) != [] ==>
                && playing.Some? && playing.value in Select(catalog, flags, AnyVideo)
                && msgs == StopNotice(old(playing)) + [Playing(playing.value)]
    {
      msgs := StopNotice(playing);
      var candidates := Select(catalog, flags, AnyVideo);
      if |candidates| == 0 {
        msgs := msgs + [NoVideosAvailable];
      } else {
        SelectMembers(catalog, flags, AnyVideo);
        assert candidates[0] in candidates;
        var choice :| choice in candidates;
        playing := Some(choice);
        msgs := msgs + [Playing(choice)];
      }
    }

    /** Pauses the playing video; a second pause changes nothing. */
    method PauseVideo() returns (msgs: seq<Msg>)
      requires Valid()
      modifies this
      ensures Valid()
      ensures flags == old(flags) && playlists == old(playlists) && playing == old(playing)
      ensures paused == (old(paused) || playing.Some?)
      ensures old(paused) ==>
                msgs == if playing.Some? then [AlreadyPaused(playing.value)] else [NoneDereference]
      ensures !old(paused) ==>
                msgs == if playing.Some? then [Pausing(playing.value)] else [CannotPauseNothing]
    {
      if paused {
        if playing.Some? {
          msgs := [AlreadyPaused(playing.value)];
        } else {
          msgs := [NoneDereference];
        }
      } else if playing.Some? {
        msgs := [Pausing(playing.value)];
        paused := true;
      } else {
        msgs := [CannotPauseNothing];
      }
    }

    /** Resumes a paused video; the pause flag is cleared only when it was set. */
    method ContinueVideo() returns (msgs: seq<Msg>)
      requires Valid()
      modifies this
      ensures Valid()
      ensures flags == old(flags) && playlists == old(playlists) && playing == old(playing)
      ensures paused == (old(paused) && playing.None?)
      ensures old(paused) ==>
                msgs == if playing.Some? then [Continuing(playing.value)] else [NoneDereference]
      ensures !old(paused) ==>
                msgs == if playing.Some? then [CannotContinueNotPaused] else [CannotContinueNothing]
    {
      if paused {
        if playing.Some? {
          msgs := [Continuing(playing.value)];
          paused := false;
        } else {
          msgs := [NoneDereference];
        }
      } else if playing.None? {
        msgs := [CannotContinueNothing];
      } else {
        msgs := [CannotContinueNotPaused];
      }
    }

    /** Creates an empty playlist under the lower-cased name, unless that key is taken. */
    method CreatePlaylist(name: string) returns (msgs: seq<Msg>)
      requires Valid()
      modifies this
      ensures Valid()
      ensures flags == old(flags) && playing == old(playing) && paused == old(paused)
      ensures Lower(name) !in old(playlists) ==>
                && Lower(name) in playlists && fresh(playlists[Lower(name)])
                && playlists == old(playlists)[Lower(name) := playlists[Lower(name)]]
                && Shelf() == old(Shelf())[Lower(name) := PlaylistView(name, [])]
                && msgs == [PlaylistCreated(name)]
      ensures Lower(name) in old(playlists) ==>
                playlists == old(playlists) && msgs == [PlaylistAlreadyExists]
    {
      var key := Lower(name);
      if key !in playlists {
        var p := new Playlist(name);
        ghost var shelf := Shelf();
        assert forall k | k in playlists :: playlists[k] != p;
        playlists := playlists[key := p];
        assert Shelf() == shelf[key := PlaylistView(name, [])] by {
          forall k | k in playlists
            ensures k in shelf[key := PlaylistView(name, [])]
          {
          }
        }
        msgs := [PlaylistCreated(name)];
      } else {
        msgs := [PlaylistAlreadyExists];
      }
    }

    /**
     * Appends a catalog video to a playlist. Nothing changes when the
     * playlist or the video is missing, or the video is flagged; otherwise
     * only the named playlist's list is edited.
     */
    method AddToPlaylist(name: string, id: VideoId) returns (msgs: seq<Msg>)
      requires Valid()
      modifies playlists.Values
      ensures Valid()
      ensures Lower(name) !in playlists ==>
                Shelf() == old(Shelf()) && msgs == [CannotAddMissingPlaylist(name)]
      ensures Lower(name) in playlists && Lookup(catalog, id).None? ==>
                Shelf() == old(Shelf()) && msgs == [CannotAddMissingVideo(name)]
      ensures Lower(name) in playlists && Lookup(catalog, id).Some? && IsFlagged(flags, id) ==>
                Shelf() == old(Shelf()) && msgs == [CannotAddFlagged(flags[id])]
      ensures Lower(name) in playlists && Lookup(catalog, id).Some? && !IsFlagged(flags, id) ==>
                var before := old(Shelf())[Lower(name)];
                && Shelf() == old(Shelf())[Lower(name) := before.(videos := Apply(before.videos, AddVideo(id)))]
                && msgs == if id in before.videos then [CannotAddAlreadyAdded(name)]
                           else [AddedToPlaylist(name, Lookup(catalog, id).value)]
    {
      var key := Lower(name);
      if key in playlists {
        var video := Lookup(catalog, id);
        if video.Some? {
          if IsFlagged(flags, id) {
            msgs := [CannotAddFlagged(flags[id])];
          } else {
            var added := playlists[key].Add(id);
            msgs := if added then [AddedToPlaylist(name, video.value)] else [CannotAddAlreadyAdded(name)];
          }
        } else {
          msgs := [CannotAddMissingVideo(name)];
        }
      } else {
        msgs := [CannotAddMissingPlaylist(name)];
      }
    }

    /**
     * Removes a catalog video from a playlist. The video must exist in the
     * catalog (flagged or not); only the named playlist's list is edited.
     */
    method RemoveFromPlaylist(name: string, id: VideoId) returns (msgs: seq<Msg>)
      requires Valid()
      modifies playlists.Values
      ensures Valid()
      ensures Lower(name) !in playlists ==>
                Shelf() == old(Shelf()) && msgs == [CannotRemoveMissingPlaylist(name)]
      ensures Lower(name) in playlists && Lookup(catalog, id).None? ==>
                Shelf() == old(Shelf()) && msgs == [CannotRemoveMissingVideo(name)]
      ensures Lower(name) in playlists && Lookup(catalog, id).Some? ==>
                var before := old(Shelf())[Lower(name)];
                && Shelf() == old(Shelf())[Lower(name) := before.(videos := Apply(before.videos, RemoveVideo(id)))]
                && msgs == if id in before.videos then [RemovedFromPlaylist(name, Lookup(catalog, id).value)]
                           else [CannotRemoveNotInPlaylist(name)]
    {
      var key := Lower(name);
      if key in playlists {
        var video := Lookup(catalog, id);
        if video.Some? {
          var removed := playlists[key].Remove(id);
          msgs := if removed then [RemovedFromPlaylist(name, video.value)] else [CannotRemoveNotInPlaylist(name)];
        } else {
          msgs := [CannotRemoveMissingVideo(name)];
        }
      } else {
        msgs := [CannotRemoveMissingPlaylist(name)];
      }
    }

    /** Empties the named playlist's list and keeps its name. */
    method ClearPlaylist(name: string) returns (msgs: seq<Msg>)
      requires Valid()
      modifies playlists.Values
      ensures Valid()
      ensures Lower(name) !in playlists ==>
                Shelf() == old(Shelf()) && msgs == [CannotClearMissingPlaylist(name)]
      ensures Lower(name) in playlists ==>
                && Shelf() == old(Shelf())[Lower(name) := old(Shelf())[Lower(name)].(videos := [])]
                && msgs == [PlaylistCleared(name)]
    {
      var key := Lower(name);
      if key in playlists {
        playlists[key].Clear();
        msgs := [PlaylistCleared(name)];
      } else {
        msgs := [CannotClearMissingPlaylist(name)];
      }
    }

    /** Removes exactly the playlist under the lower-cased name. */
    method DeletePlaylist(name: string) returns (msgs: seq<Msg>)
      requires Valid()
      modifies this
      ensures Valid()
      ensures flags == old(flags) && playing == old(playing) && paused == old(paused)
      ensures playlists == old(playlists) - {Lower(name)}
      ensures Shelf() == old(Shelf()) - {Lower(name)}
      ensures msgs == if Lower(name) in old(playlists) then [PlaylistDeleted(name)]
                      else [CannotDeleteMissingPlaylist(name)]
    {
      var key := Lower(name);
      if key in playlists {
        playlists := playlists - {key};
        msgs := [PlaylistDeleted(name)];
      } else {
        msgs := [CannotDeleteMissingPlaylist(name)];
      }
    }

    /** Runs one catalog filter and reports its numbered results and the follow-up answer. */
    method Search(term: string, q: Query, answer: Option<int>) returns (msgs: seq<Msg>)
      ensures msgs == SearchReport(term, Select(catalog, flags, q), answer)
    {
      var results: seq<Video> := [];
      var i := 0;
      while i < |catalog|
        invariant 0 <= i <= |catalog|
        invariant results == Select(catalog[..i], flags, q)
      {
        var video := catalog[i];
        SelectAppend(catalog[..i], flags, q, video);
        assert catalog[..i + 1] == catalog[..i] + [video];
        if Matches(video, q) {
          if !IsFlagged(flags, video.id) {
            results := results + [video];
          }
        }
        i := i + 1;
      }
      assert catalog[..i] == catalog;
      msgs := SearchReport(term, results, answer);
    }

    /** Lists the unflagged videos whose title contains the term, ignoring case. */
    method SearchVideos(term: string, answer: Option<int>) returns (msgs: seq<Msg>)
      ensures msgs == SearchReport(term, Select(catalog, flags, TitleContains(term)), answer)
    {
      msgs := Search(term, TitleContains(term), answer);
    }

    /** Lists the unflagged videos carrying the tag. */
    method SearchVideosTag(tag: string, answer: Option<int>) returns (msgs: seq<Msg>)
      ensures msgs == SearchReport(tag, Select(catalog, flags, HasTag(tag)), answer)
    {
      msgs := Search(tag, HasTag(tag), answer);
    }

    /**
     * Flags a catalog video. If it is playing it is stopped first; the pause
     * flag is left as it was. A video already flagged keeps its reason.
     */
    method FlagVideo(id: VideoId, reason: Option<string>) returns (msgs: seq<Msg>)
      requires Valid()
      modifies this
      ensures Valid()
      ensures playlists == old(playlists) && paused == old(paused)
      ensures Lookup(catalog, id).None? ==>
                flags == old(flags) && playing == old(playing) && msgs == [CannotFlagMissing]
      ensures Lookup(catalog, id).Some? ==>
                var video := Lookup(catalog, id).value;
                var given := if reason.Some? then reason.value else NOT_SUPPLIED;
                var wasPlaying := old(playing).Some? && old(playing).value.id == id;
                && playing == (if wasPlaying then None else old(playing))
                && flags == (if IsFlagged(old(flags), id) then old(flags) else old(flags)[id := given])
                && msgs == (if wasPlaying then [Stopping(video)] else []) +
                           (if IsFlagged(old(flags), id) then [CannotFlagAlreadyFlagged] else [FlagSet(video, given)])
    {
      var found := Lookup(catalog, id);
      if found.Some? {
        var video := found.value;
        var given := if reason.Some? then reason.value else NOT_SUPPLIED;
        if playing.Some? {
          LookupFindsMember(catalog, playing.value);
        }
        msgs := [];
        if playing == Some(video) {
          playing := None;
          msgs := [Stopping(video)];
        }
        if !IsFlagged(flags, id) {
          flags := flags[id := given];
          msgs := msgs + [FlagSet(video, given)];
        } else {
          msgs := msgs + [CannotFlagAlreadyFlagged];
        }
      } else {
        msgs := [CannotFlagMissing];
      }
    }

    /** Clears a catalog video's flag, only if it is flagged. */
    method AllowVideo(id: VideoId) returns (msgs: seq<Msg>)
      requires Valid()
      modifies this
      ensures Valid()
      ensures playlists == old(playlists) && playing == old(playing) && paused == old(paused)
      ensures Lookup(catalog, id).None? ==> flags == old(flags) && msgs == [CannotAllowMissing]
      ensures Lookup(catalog, id).Some? && IsFlagged(old(flags), id) ==>
                flags == old(flags) - {id} && msgs == [FlagRemoved(Lookup(catalog, id).value)]
      ensures Lookup(catalog, id).Some? && !IsFlagged(old(flags), id) ==>
                flags == old(flags) && msgs == [CannotAllowNotFlagged]
    {
      var found := Lookup(catalog, id);
      if found.Some? {
        if IsFlagged(flags, id) {
          flags := flags - {id};
          msgs := [FlagRemoved(found.value)];
        } else {
          msgs := [CannotAllowNotFlagged];
        }
      } else {
        msgs := [CannotAllowMissing];
      }
    }
  }
}
