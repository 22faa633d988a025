/**
 * A playlist: a display name and an ordered list of videos without
 * duplicates. Videos are held by id; catalog ids are unique, so comparing
 * ids is the same as comparing the catalog's video objects.
 */
module Playlists {
  import opened Sequences
  import opened Library

  /** The three edits a playlist's video list undergoes. */
  datatype Edit = AddVideo(v: VideoId) | RemoveVideo(v: VideoId) | ClearVideos

  /** The video list after one edit: add appends an absent video, remove deletes a present one, clear empties. */
  function Apply(videos: seq<VideoId>, e: Edit): (r: seq<VideoId>)
    ensures |r| <= |videos| + 1
    ensures forall w :: w in r ==> w in videos || e == AddVideo(w)
  {
    match e
    case AddVideo(v) => if v in videos then videos else videos + [v]
    case RemoveVideo(v) =>
      if v in videos then
        RemoveFirstSubset(videos, v);
        RemoveFirst(videos, v)
      else videos
    case ClearVideos => []
  }

  /** The video list after a sequence of edits, applied left to right. */
  function ApplyAll(videos: seq<VideoId>, edits: seq<Edit>): (r: seq<VideoId>)
    ensures forall w :: w in r ==> w in videos || AddVideo(w) in edits
    decreases |edits|
  {
    if edits == [] then videos
    else
      assert forall e :: e in edits[1..] ==> e in edits;
      ApplyAll(Apply(videos, edits[0]), edits[1..])
  }

  /** One edit never introduces a duplicate. */
  lemma ApplyKeepsNoDuplicates(videos: seq<VideoId>, e: Edit)
    requires NoDuplicates(videos)
    ensures NoDuplicates(Apply(videos, e))
  {
    match e
    case AddVideo(v) =>
    case RemoveVideo(v) =>
      if v in videos {
        RemoveFirstKeepsNoDuplicates(videos, v);
      }
    case ClearVideos =>
  }

  /** The playlist invariant: no sequence of add, remove and clear introduces a duplicate. */
  lemma {:induction false} ApplyAllKeepsNoDuplicates(videos: seq<VideoId>, edits: seq<Edit>)
    requires NoDuplicates(videos)
    ensures NoDuplicates(ApplyAll(videos, edits))
    decreases |edits|
  {
    if edits != [] {
      ApplyKeepsNoDuplicates(videos, edits[0]);
      ApplyAllKeepsNoDuplicates(Apply(videos, edits[0]), edits[1..]);
    }
  }

  /** Removing a video that was just added gives the list back as it was. */
  lemma RemoveUndoesAdd(videos: seq<VideoId>, v: VideoId)
    requires v !in videos
    ensures Apply(Apply(videos, AddVideo(v)), RemoveVideo(v)) == videos
  {
    RemoveFirstOfAppended(videos, v);
  }

  /** After removal from a duplicate-free list the video is gone and every other video stays. */
  lemma RemoveDeletesOnlyCopy(videos: seq<VideoId>, v: VideoId)
    requires NoDuplicates(videos)
    ensures v !in Apply(videos, RemoveVideo(v))
    ensures forall w :: w != v ==> (w in Apply(videos, RemoveVideo(v)) <==> w in videos)
  {
    if v in videos {
      RemoveFirstKeepsNoDuplicates(videos, v);
    }
  }

  class Playlist {
    const name: string
    var videos: seq<VideoId>

    ghost predicate Valid()
      reads this
    {
      NoDuplicates(videos)
    }

    /** A new playlist keeps the given name and starts with no videos. */
    constructor (name: string)
      ensures Valid()
      ensures this.name == name && videos == []
    {
      this.name := name;
      videos := [];
    }

    method Clear()
      requires Valid()
      modifies this
      ensures Valid()
      ensures videos == Apply(old(videos), ClearVideos)
    {
      videos := [];
    }

    /** Removes `v` if it is present; the result says whether it was. */
    method Remove(v: VideoId) returns (removed: bool)
      requires Valid()
      modifies this
      ensures Valid()
      ensures removed == (v in old(videos))
      ensures videos == Apply(old(videos), RemoveVideo(v))
      ensures removed ==> videos == old(videos)[..IndexOf(old(videos), v)] + old(videos)[IndexOf(old(videos), v) + 1..]
    {
      if v in videos {
        RemoveFirstKeepsNoDuplicates(videos, v);
        RemoveFirstSplices(videos, v);
        videos := RemoveFirst(videos, v);
        removed := true;
      } else {
        removed := false;
      }
    }

    /** Appends `v` unless it is already present; the result says whether it was appended. */
    method Add(v: VideoId) returns (added: bool)
      requires Valid()
      modifies this
      ensures Valid()
      ensures added == (v !in old(videos))
      ensures videos == Apply(old(videos), AddVideo(v))
      ensures added ==> videos == old(videos) + [v]
    {
      if v in videos {
        added := false;
      } else {
        videos := videos + [v];
        added := true;
      }
    }

    /** The stored list, which holds no video twice. */
    function GetVideos(): (r: seq<VideoId>)
      reads this
      requires Valid()
      ensures r == videos && NoDuplicates(r)
    {
      videos
    }
  }
}
