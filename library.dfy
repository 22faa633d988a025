/**
 * The video catalog as the player sees it: a read-only sequence of videos
 * with unique ids, a flag reason per video, lookup by id, and the filters
 * behind random play and the two searches.
 */
module Library {
  import opened Sequences
  import opened Text

  datatype Option<T> = None | Some(value: T)

  type VideoId = string

  /** A catalog entry; its flag is kept apart, in the player's flag map. */
  datatype Video = Video(id: VideoId, title: string, tags: seq<string>)

  /** No two catalog entries share an id. */
  predicate UniqueIds(catalog: seq<Video>) {
    forall i, j :: 0 <= i < j < |catalog| ==> catalog[i].id != catalog[j].id
  }

  /** The library's `get_video`: the entry with this id, if there is one. */
  function Lookup(catalog: seq<Video>, id: VideoId): (r: Option<Video>)
    ensures r.Some? ==> r.value in catalog && r.value.id == id
    ensures r.None? ==> forall v :: v in catalog ==> v.id != id
  {
    if catalog == [] then None
    else if catalog[0].id == id then Some(catalog[0])
    else Lookup(catalog[1..], id)
  }

  /**
   * With unique ids, looking up a catalog entry's own id finds that very
   * entry; this follows from the contract of `Lookup`.
   */
  lemma LookupFindsMember(catalog: seq<Video>, v: Video)
    requires UniqueIds(catalog) && v in catalog
    ensures Lookup(catalog, v.id) == Some(v)
  {
  }

  /** Distinct ids make distinct entries. */
  lemma UniqueIdsNoDuplicates(catalog: seq<Video>)
    requires UniqueIds(catalog)
    ensures NoDuplicates(catalog)
  {
  }

  /**
   * A video is flagged when its flag reason is set and non-empty: the
   * player checks the reason's truth value, and an empty string is false.
   */
  predicate IsFlagged(flags: map<VideoId, string>, id: VideoId)
    ensures IsFlagged(flags, id) ==> id in flags
  {
    id in flags && flags[id] != ""
  }

  /** Recording a reason flags the video exactly when the reason is non-empty, and no other video. */
  lemma FlagUpdate(flags: map<VideoId, string>, id: VideoId, reason: string)
    ensures IsFlagged(flags[id := reason], id) <==> reason != ""
    ensures forall other :: other != id ==> (IsFlagged(flags[id := reason], other) <==> IsFlagged(flags, other))
  {
  }

  /** What a catalog filter asks for. */
  datatype Query =
    | AnyVideo                      // the candidates of random play
    | TitleContains(term: string)   // title search, case-insensitive substring
    | HasTag(tag: string)           // tag search, exact membership

  /** The title test is a case-insensitive substring test; the tag test is exact membership. */
  predicate Matches(v: Video, q: Query)
    ensures q.AnyVideo? ==> Matches(v, q)
    ensures q.TitleContains? && Matches(v, q) ==> |q.term| <= |v.title|
  {
    match q
    case AnyVideo => true
    case TitleContains(term) => IsSubstring(Lower(term), Lower(v.title))
    case HasTag(tag) => tag in v.tags
  }

  /** A video is offered by a filter when it matches and is not flagged. */
  predicate Selected(flags: map<VideoId, string>, q: Query, v: Video) {
    Matches(v, q) && !IsFlagged(flags, v.id)
  }

  /** The offered videos, in catalog order. */
  function Select(catalog: seq<Video>, flags: map<VideoId, string>, q: Query): (r: seq<Video>)
    ensures |r| <= |catalog|
    ensures forall k :: 0 <= k < |r| ==> Selected(flags, q, r[k])
  {
    if catalog == [] then []
    else (if Selected(flags, q, catalog[0]) then [catalog[0]] else []) + Select(catalog[1..], flags, q)
  }

  /** Exactly the unflagged matching catalog videos are offered. */
  lemma {:induction false} SelectMembers(catalog: seq<Video>, flags: map<VideoId, string>, q: Query)
    ensures forall v :: v in Select(catalog, flags, q) <==> v in catalog && Selected(flags, q, v)
  {
    if catalog != [] {
      SelectMembers(catalog[1..], flags, q);
      assert catalog == [catalog[0]] + catalog[1..];
    }
  }

  /** `x` occurs in `s` at a position before one where `y` occurs. */
  predicate Before(s: seq<Video>, x: Video, y: Video) {
    exists p, q :: 0 <= p < q < |s| && s[p] == x && s[q] == y
  }

  /**
   * Every element of `r` is in `s`, and of any two elements of `r` the
   * earlier one occurs in `s` before the later one.
   */
  predicate InOrderOf(r: seq<Video>, s: seq<Video>) {
    && (forall k :: 0 <= k < |r| ==> r[k] in s)
    && (forall i, j :: 0 <= i < j < |r| ==> Before(s, r[i], r[j]))
  }

  /** Offered videos appear once each. */
  lemma {:induction false} SelectNoDuplicates(catalog: seq<Video>, flags: map<VideoId, string>, q: Query)
    requires NoDuplicates(catalog)
    ensures NoDuplicates(Select(catalog, flags, q))
  {
    if catalog != [] {
      HeadNotInTail(catalog);
      TailNoDuplicates(catalog);
      SelectNoDuplicates(catalog[1..], flags, q);
      SelectMembers(catalog[1..], flags, q);
      if Selected(flags, q, catalog[0]) {
        ConsNoDuplicates(catalog[0], Select(catalog[1..], flags, q));
      }
    }
  }

  /**
   * Offered videos keep the catalog's order, so the k-th result (numbered
   * from 1) is the k-th offered video of the catalog.
   */
  lemma {:induction false} SelectInCatalogOrder(catalog: seq<Video>, flags: map<VideoId, string>, q: Query)
    ensures InOrderOf(Select(catalog, flags, q), catalog)
  {
    if catalog != [] {
      var tail := catalog[1..];
      SelectInCatalogOrder(tail, flags, q);
      var rest := Select(tail, flags, q);
      if Selected(flags, q, catalog[0]) {
        assert Select(catalog, flags, q) == [catalog[0]] + rest;
        InOrderOfCons(rest, catalog);
      } else {
        assert Select(catalog, flags, q) == rest;
        InOrderOfTail(rest, catalog);
      }
    }
  }

  /** An occurrence order along the tail holds along the whole sequence. */
  lemma BeforeTail(s: seq<Video>, x: Video, y: Video)
    requires s != [] && Before(s[1..], x, y)
    ensures Before(s, x, y)
  {
    var p, q :| 0 <= p < q < |s[1..]| && s[1..][p] == x && s[1..][q] == y;
    assert s[p + 1] == x && s[q + 1] == y;
  }

  /** The head occurs before everything in the tail. */
  lemma BeforeHead(s: seq<Video>, y: Video)
    requires s != [] && y in s[1..]
    ensures Before(s, s[0], y)
  {
    var q :| 0 <= q < |s[1..]| && s[1..][q] == y;
    assert s[0] == s[0] && s[q + 1] == y;
  }

  /** An order along the tail is an order along the whole sequence. */
  lemma InOrderOfTail(r: seq<Video>, s: seq<Video>)
    requires s != [] && InOrderOf(r, s[1..])
    ensures InOrderOf(r, s)
  {
    forall k | 0 <= k < |r|
      ensures r[k] in s
    {
      assert r[k] in s[1..];
    }
    forall i, j | 0 <= i < j < |r|
      ensures Before(s, r[i], r[j])
    {
      BeforeTail(s, r[i], r[j]);
    }
  }

  /** The head, put in front of a list ordered along the tail, keeps the order. */
  lemma InOrderOfCons(r: seq<Video>, s: seq<Video>)
    requires s != [] && InOrderOf(r, s[1..])
    ensures InOrderOf([s[0]] + r, s)
  {
    var r' := [s[0]] + r;
    forall k | 0 <= k < |r'|
      ensures r'[k] in s
    {
      if k > 0 {
        assert r'[k] == r[k - 1] && r[k - 1] in s[1..];
      }
    }
    forall i, j | 0 <= i < j < |r'|
      ensures Before(s, r'[i], r'[j])
    {
      assert r'[j] == r[j - 1];
      if i == 0 {
        BeforeHead(s, r[j - 1]);
      } else {
        assert r'[i] == r[i - 1];
        BeforeTail(s, r[i - 1], r[j - 1]);
      }
    }
  }

  /** Extending the catalog by one video extends the offer by that video exactly when it is offered. */
  lemma {:induction false} SelectAppend(catalog: seq<Video>, flags: map<VideoId, string>, q: Query, v: Video)
    ensures Select(catalog + [v], flags, q) ==
            Select(catalog, flags, q) + (if Selected(flags, q, v) then [v] else [])
  {
    if catalog == [] {
      assert Select([v], flags, q) == (if Selected(flags, q, v) then [v] else []) + Select([], flags, q);
    } else {
      assert (catalog + [v])[1..] == catalog[1..] + [v];
      SelectAppend(catalog[1..], flags, q, v);
    }
  }
}
