/**
 * Client methods that drive a fresh player through short command sequences.
 * Each relies on the operations' contracts alone, so each shows that those
 * contracts pin down the outcome of the sequence.
 */
module Scenarios {
  import opened Text
  import opened Library
  import opened Player

  /**
   * Play, pause, stop: the stop leaves the pause flag set, so the player is
   * paused with nothing playing, and the next pause reads a missing video.
   */
  method PauseAfterStop(v: Video) returns (paused: bool, last: seq<Msg>)
    ensures paused && last == [NoneDereference]
  {
    var p := new VideoPlayer([v]);
    var m := p.PlayVideo(v.id);
    m := p.PauseVideo();
    assert m == [Pausing(v)];
    m := p.StopVideo();
    assert p.playing == None;
    paused := p.paused;
    last := p.PauseVideo();
  }

  /** Playing the same video again announces its stop before playing it anew. */
  method ReplaySameVideo(v: Video) returns (msgs: seq<Msg>)
    ensures msgs == [Stopping(v), Playing(v)]
  {
    var p := new VideoPlayer([v]);
    var m := p.PlayVideo(v.id);
    msgs := p.PlayVideo(v.id);
  }

  /** Flagging the playing video stops it, and playing it afterwards is refused with the reason. */
  method FlagPlayingThenPlay(v: Video) returns (flagMsgs: seq<Msg>, playMsgs: seq<Msg>)
    ensures flagMsgs == [Stopping(v), FlagSet(v, "inappropriate")]
    ensures playMsgs == [CannotPlayFlagged("inappropriate")]
  {
    var p := new VideoPlayer([v]);
    var m := p.PlayVideo(v.id);
    flagMsgs := p.FlagVideo(v.id, Some("inappropriate"));
    playMsgs := p.PlayVideo(v.id);
  }

  /** A second add of the same video is refused; names are matched ignoring case. */
  method AddTwice(v: Video) returns (first: seq<Msg>, second: seq<Msg>)
    ensures first == [AddedToPlaylist("Vacation", v)]
    ensures second == [CannotAddAlreadyAdded("VACATION")]
  {
    var p := new VideoPlayer([v]);
    var m := p.CreatePlaylist("Vacation");
    assert Lower("VACATION") == Lower("Vacation");
    first := p.AddToPlaylist("Vacation", v.id);
    second := p.AddToPlaylist("VACATION", v.id);
  }

  /** With an empty catalog random play has nothing to offer. */
  method RandomOnEmptyCatalog() returns (msgs: seq<Msg>)
    ensures msgs == [NoVideosAvailable]
  {
    var p := new VideoPlayer([]);
    msgs := p.PlayRandomVideo();
  }

  /** Random play does not clear the pause flag: the new video starts out paused. */
  method RandomKeepsPause(v: Video) returns (msgs: seq<Msg>, paused: bool)
    ensures msgs == [Stopping(v), Playing(v)] && paused
  {
    var p := new VideoPlayer([v]);
    var m := p.PlayVideo(v.id);
    m := p.PauseVideo();
    SelectMembers([v], map[], AnyVideo);
    msgs := p.PlayRandomVideo();
    paused := p.paused;
  }

  /**
   * A title search is case-insensitive and skips non-matching titles; a
   * valid answer only announces the chosen result, an out-of-range or
   * non-numeric one adds nothing.
   */
  method SearchCat(cat: Video, dog: Video) returns (chosen: seq<Msg>, outOfRange: seq<Msg>, notANumber: seq<Msg>)
    requires cat.title == "Cat Video" && dog.title == "Dog Video" && cat.id != dog.id
    ensures chosen == [SearchResults("cat", [cat]), Playing(cat)]
    ensures outOfRange == notANumber == [SearchResults("cat", [cat])]
  {
    var p := new VideoPlayer([cat, dog]);
    TitleSearchForCat(cat, dog);
    chosen := p.SearchVideos("cat", Some(1));
    outOfRange := p.SearchVideos("cat", Some(5));
    notANumber := p.SearchVideos("cat", None);
  }

  /** Searching "cat" over "Cat Video" and "Dog Video" offers the cat video alone. */
  lemma TitleSearchForCat(cat: Video, dog: Video)
    requires cat.title == "Cat Video" && dog.title == "Dog Video"
    ensures Select([cat, dog], map[], TitleContains("cat")) == [cat]
  {
    assert IsSubstring(Lower("cat"), Lower(cat.title)) by {
      assert Lower("cat") <= Lower(cat.title);
    }
    assert !IsSubstring(Lower("cat"), Lower(dog.title)) by {
      assert Lower(dog.title) == "dog video" && Lower("cat") == "cat";
      assert forall k | 0 <= k < |"dog video"| :: "dog video"[k] != 'c';
      FirstCharAbsent("cat", "dog video");
    }
    assert [cat, dog][1..] == [dog] && [dog][1..] == [];
    assert Selected(map[], TitleContains("cat"), cat) && !Selected(map[], TitleContains("cat"), dog);
    assert Select([dog], map[], TitleContains("cat")) == [];
    assert Select([cat, dog], map[], TitleContains("cat")) == [cat];
  }
}
