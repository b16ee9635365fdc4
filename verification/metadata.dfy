/** src/metadata.rs: enriching a catalogue with records fetched from an
    external TV database. The three database calls are the fields of an
    `Api` value; everything else (the truncating title search, matching by
    number, which fields are overwritten) is modelled as written. This file
    works on its own catalogue records, which carry the descriptive fields
    the merge writes. */
module Metadata {
  import opened Common

  // ------------------------------------------------------- local records

  datatype Episode = Episode(number: int, name: string, path: string)

  datatype Season = Season(number: int, name: string, airDate: Option<string>, episodes: seq<Episode>)

  datatype Show = Show(
    name: string,
    description: Option<string>,
    originalName: Option<string>,
    airDate: Option<string>,
    rating: Option<real>,
    seasons: seq<Season>)

  // ---------------------------------------------------- external records

  /** A search hit (`TvObject`). */
  datatype TvObject = TvObject(
    id: Option<int>,
    name: Option<string>,
    overview: Option<string>,
    originalName: Option<string>,
    firstAirDate: Option<string>,
    rating: Option<real>)

  /** One entry of a show's season list. */
  datatype SeasonSummary = SeasonSummary(seasonNumber: Option<int>)

  /** `TvDetails`, of which only the season list is read. */
  datatype TvDetails = TvDetails(seasons: Option<seq<SeasonSummary>>)

  /** One entry of a season's episode list. */
  datatype EpisodeSummary = EpisodeSummary(episodeNumber: Option<int>, name: Option<string>)

  /** `SeasonDetails`, of which the name, air date and episodes are read. */
  datatype SeasonDetails = SeasonDetails(name: Option<string>, airDate: Option<string>, episodes: Option<seq<EpisodeSummary>>)

  /** The database: `search` is the paginated TV search (`None` for a failed
      request, otherwise its result list), `showDetails` and `seasonDetails`
      the two detail fetches (`None` for a failed request). */
  datatype Api = Api(
    search: string -> Option<seq<TvObject>>,
    showDetails: int -> Option<TvDetails>,
    seasonDetails: (int, int) -> Option<SeasonDetails>)

  // ------------------------------------------------------- title search

  /** `get_show_metadata`: the first hit, or nothing when the request fails
      or finds nothing. */
  function GetShowMetadata(api: Api, query: string): (r: Option<TvObject>)
    ensures r.Some? <==> api.search(query).Some? && |api.search(query).value| > 0
    ensures r.Some? ==> r.value == api.search(query).value[0]
  {
    match api.search(query)
    case None => None
    case Some(hits) => if |hits| == 0 then None else Some(hits[0])
  }

  /** One retry step: drop the last whitespace-separated word and join the
      rest with single spaces. */
  function Truncate(query: string): string {
    Join(DropLast(SplitWhitespace(query)), ' ')
  }

  /** The query of the `i`-th attempt, counting the original name as 0. */
  function QueryAt(name: string, i: nat): string
    decreases i
  {
    if i == 0 then name else QueryAt(Truncate(name), i - 1)
  }

  /** How `get_show_metadata_from_dirty_name` can end when it is allowed
      `fuel` retries: it returns a value, or has not returned yet. */
  datatype Run = Returned(result: Option<TvObject>) | OutOfFuel

  /** `get_show_metadata_from_dirty_name` as written, cut off after `fuel`
      retries: the recursion has no case that stops at the empty query, so
      it never returns `None`. */
  function DirtyNameRun(api: Api, name: string, fuel: nat): (r: Run)
    ensures r != Returned(None)
    decreases fuel
  {
    match GetShowMetadata(api, name)
    case Some(m) => Returned(Some(m))
    case None => if fuel == 0 then OutOfFuel else DirtyNameRun(api, Truncate(name), fuel - 1)
  }

  /** Attempt `k` finds nothing. */
  predicate Miss(api: Api, name: string, k: nat) {
    GetShowMetadata(api, QueryAt(name, k)).None?
  }

  /** Attempts `0..n` all find nothing. */
  predicate MissesThrough(api: Api, name: string, n: nat) {
    forall k :: 0 <= k <= n ==> Miss(api, name, k)
  }

  /** Attempt `j` is the first that finds something. */
  predicate FirstHitAt(api: Api, name: string, j: nat) {
    !Miss(api, name, j) && (j == 0 || MissesThrough(api, name, j - 1))
  }

  lemma MissShift(api: Api, name: string, k: nat)
    ensures Miss(api, name, k + 1) == Miss(api, Truncate(name), k)
  {
    assert QueryAt(name, k + 1) == QueryAt(Truncate(name), k);
  }

  lemma MissesThroughShift(api: Api, name: string, n: nat)
    requires Miss(api, name, 0)
    ensures MissesThrough(api, name, n + 1) == MissesThrough(api, Truncate(name), n)
  {
    if MissesThrough(api, Truncate(name), n) {
      forall k | 0 <= k <= n + 1 ensures Miss(api, name, k) {
        if k > 0 {
          MissShift(api, name, k - 1);
        }
      }
    }
    if MissesThrough(api, name, n + 1) {
      forall k | 0 <= k <= n ensures Miss(api, Truncate(name), k) {
        MissShift(api, name, k);
      }
    }
  }

  /** With `fuel` retries the call has not returned exactly when the first
      `fuel + 1` attempts all find nothing. */
  lemma {:induction false} RunOutOfFuel(api: Api, name: string, fuel: nat)
    ensures DirtyNameRun(api, name, fuel).OutOfFuel? <==> MissesThrough(api, name, fuel)
    decreases fuel
  {
    if Miss(api, name, 0) && fuel > 0 {
      RunOutOfFuel(api, Truncate(name), fuel - 1);
      MissesThroughShift(api, name, fuel - 1);
    }
  }

  /** When it returns, it returns the first hit of the first attempt that
      finds something. */
  lemma {:induction false} RunReturnsFirstHit(api: Api, name: string, fuel: nat)
    requires DirtyNameRun(api, name, fuel).Returned?
    ensures exists j :: (0 <= j <= fuel && FirstHitAt(api, name, j)
                         && DirtyNameRun(api, name, fuel).result == GetShowMetadata(api, QueryAt(name, j)))
    decreases fuel
  {
    if Miss(api, name, 0) {
      RunReturnsFirstHit(api, Truncate(name), fuel - 1);
      var j :| 0 <= j <= fuel - 1 && FirstHitAt(api, Truncate(name), j)
        && DirtyNameRun(api, Truncate(name), fuel - 1).result == GetShowMetadata(api, QueryAt(Truncate(name), j));
      MissShift(api, name, j);
      if j > 0 {
        MissesThroughShift(api, name, j - 1);
      }
      assert QueryAt(name, j + 1) == QueryAt(Truncate(name), j);
      assert FirstHitAt(api, name, j + 1);
    } else {
      assert FirstHitAt(api, name, 0);
    }
  }

  /** Number of attempts after which every further query is `""`. */
  function Bound(name: string): (b: nat)
    ensures b >= 1
  {
    if |SplitWhitespace(name)| == 0 then 1 else |SplitWhitespace(name)|
  }

  function Max0(x: int): nat {
    if x < 0 then 0 else x
  }

  /** Attempt `i` (after the first) searches for the first `k - i` words of
      the name joined by single spaces, `k` being the name's word count. */
  lemma {:induction false} QueryClosedForm(name: string, i: nat)
    requires i >= 1
    ensures QueryAt(name, i) == Join(SplitWhitespace(name)[..Max0(|SplitWhitespace(name)| - i)], ' ')
    decreases i
  {
    var ws := SplitWhitespace(name);
    TruncateWords(name);
    if i > 1 {
      QueryClosedForm(Truncate(name), i - 1);
      assert ws[..Max0(|ws| - 1)][..Max0(|ws| - 1 - (i - 1))] == ws[..Max0(|ws| - i)];
    }
  }

  /** One retry drops exactly the last word. */
  lemma TruncateWords(name: string)
    ensures var ws := SplitWhitespace(name);
      && Truncate(name) == Join(ws[..Max0(|ws| - 1)], ' ')
      && SplitWhitespace(Truncate(name)) == ws[..Max0(|ws| - 1)]
  {
    var ws := SplitWhitespace(name);
    var dropped := DropLast(ws);
    assert dropped == ws[..Max0(|ws| - 1)];
    assert forall k :: 0 <= k < |dropped| ==> IsWord(dropped[k]) by {
      forall k | 0 <= k < |dropped| ensures IsWord(dropped[k]) {
        assert dropped[k] == ws[k];
      }
    }
    SplitJoinWords(dropped);
  }

  /** Once the words are used up, every further attempt searches for `""`:
      the retries never stop by themselves. */
  lemma QueriesReachEmpty(name: string, i: nat)
    requires i >= Bound(name)
    ensures QueryAt(name, i) == ""
  {
    QueryClosedForm(name, i);
    assert Max0(|SplitWhitespace(name)| - i) == 0;
  }

  lemma {:induction false} RunMonotone(api: Api, name: string, fuel: nat, more: nat)
    requires fuel <= more && DirtyNameRun(api, name, fuel).Returned?
    ensures DirtyNameRun(api, name, more) == DirtyNameRun(api, name, fuel)
    decreases fuel
  {
    if GetShowMetadata(api, name).None? {
      assert fuel > 0;
      RunMonotone(api, Truncate(name), fuel - 1, more - 1);
    }
  }

  /** `Bound(name)` retries decide the outcome: with more fuel the result is
      the same, so the call either returns within `Bound(name)` retries or
      never returns. */
  lemma RunDecidedByBound(api: Api, name: string, fuel: nat)
    requires fuel >= Bound(name)
    ensures DirtyNameRun(api, name, fuel) == DirtyNameRun(api, name, Bound(name))
  {
    var b := Bound(name);
    if DirtyNameRun(api, name, b).Returned? {
      RunMonotone(api, name, b, fuel);
    } else {
      RunOutOfFuel(api, name, b);
      forall k | 0 <= k <= fuel ensures Miss(api, name, k) {
        if k > b {
          QueriesReachEmpty(name, k);
          QueriesReachEmpty(name, b);
          assert Miss(api, name, b);
        }
      }
      RunOutOfFuel(api, name, fuel);
    }
  }

  /** The search hangs exactly when no attempt, of all infinitely many, hits. */
  lemma HangsIffEveryAttemptMisses(api: Api, name: string)
    ensures DirtyNameRun(api, name, Bound(name)).OutOfFuel? <==> forall k: nat :: Miss(api, name, k)
  {
    RunOutOfFuel(api, name, Bound(name));
    if DirtyNameRun(api, name, Bound(name)).OutOfFuel? {
      forall k: nat ensures Miss(api, name, k) {
        if k > Bound(name) {
          RunDecidedByBound(api, name, k);
          RunOutOfFuel(api, name, k);
        }
      }
    }
  }

  // --------------------------------------------------------------- merge

  /** How one step of `set_metadata` ends: with a value, in a panic (an
      `unwrap` on a missing number), or `Hangs`: the title search does not
      return, because its recursion never reaches a stopping case (the real
      process recurses without bound until it exhausts its stack). */
  datatype Outcome<T> = Returns(value: T) | Panics | Hangs

  /** `find` on the episode list: the first entry whose number, missing
      read as 0, is `number`. */
  function EpisodeMatch(tmdbEpisodes: seq<EpisodeSummary>, number: int): Option<nat> {
    Position(tmdbEpisodes, (t: EpisodeSummary) => t.episodeNumber.GetOr(0) == number)
  }

  /** `find` on the season list, likewise. */
  function SeasonMatch(tmdbSeasons: seq<SeasonSummary>, number: int): Option<nat> {
    Position(tmdbSeasons, (t: SeasonSummary) => t.seasonNumber.GetOr(0) == number)
  }

  /** The body of the episode loop. */
  function MergeEpisode(e: Episode, tmdbEpisodes: seq<EpisodeSummary>): (r: Episode)
    ensures r.number == e.number && r.path == e.path
  {
    match EpisodeMatch(tmdbEpisodes, e.number)
    case None => e
    case Some(i) =>
      match tmdbEpisodes[i].name
      case Some(n) => e.(name := n)
      case None => e
  }

  function MergeEpisodes(episodes: seq<Episode>, tmdbEpisodes: seq<EpisodeSummary>): (r: seq<Episode>)
    ensures |r| == |episodes|
  {
    seq(|episodes|, k requires 0 <= k < |episodes| => MergeEpisode(episodes[k], tmdbEpisodes))
  }

  /** The body of the season loop for the show with database id `showId`. */
  function MergeSeason(s: Season, showId: int, tmdbSeasons: seq<SeasonSummary>, api: Api): (r: Outcome<Season>)
    ensures !r.Hangs?
    ensures r.Returns? ==> r.value.number == s.number && |r.value.episodes| == |s.episodes|
  {
    match SeasonMatch(tmdbSeasons, s.number)
    case None => Returns(s)
    case Some(i) =>
      match tmdbSeasons[i].seasonNumber
      case None => Panics
      case Some(n) =>
        match api.seasonDetails(showId, n)
        case None => Returns(s)
        case Some(d) =>
          var named := s.(name := d.name.GetOr(s.name), airDate := d.airDate);
          match d.episodes
          case None => Returns(named)
          case Some(eps) => Returns(named.(episodes := MergeEpisodes(named.episodes, eps)))
  }

  /** The season loop: it panics at the first season that panics. */
  function MergeSeasons(seasons: seq<Season>, showId: int, tmdbSeasons: seq<SeasonSummary>, api: Api): (r: Outcome<seq<Season>>)
    ensures !r.Hangs?
    ensures r.Returns? ==> |r.value| == |seasons|
  {
    if exists k :: 0 <= k < |seasons| && MergeSeason(seasons[k], showId, tmdbSeasons, api).Panics? then Panics
    else Returns(seq(|seasons|, k requires 0 <= k < |seasons| => MergeSeason(seasons[k], showId, tmdbSeasons, api).value))
  }

  /** One iteration of the show loop. */
  function MergeShow(show: Show, api: Api): (r: Outcome<Show>)
    ensures !r.Panics? || exists k :: 0 <= k < |show.seasons| && show.seasons[k].number == 0
  {
    match DirtyNameRun(api, show.name, Bound(show.name))
    case OutOfFuel => Hangs
    case Returned(hit) =>
      var tmdbShow := hit.value;
      match tmdbShow.id
      case None => Returns(show)
      case Some(id) =>
        match api.showDetails(id)
        case None => Returns(show)
        case Some(details) =>
          var described := show.(
            name := tmdbShow.name.GetOr(show.name),
            description := tmdbShow.overview,
            originalName := tmdbShow.originalName,
            airDate := tmdbShow.firstAirDate,
            rating := tmdbShow.rating);
          match details.seasons
          case None => Returns(described)
          case Some(tmdbSeasons) =>
            match MergeSeasons(described.seasons, id, tmdbSeasons, api)
            case Returns(seasons) => Returns(described.(seasons := seasons))
            case _ =>
              PanicNeedsSeasonZero(described.seasons, id, tmdbSeasons, api);
              Panics
  }

  /** `set_metadata`: the shows in order; the first show whose step panics
      or hangs decides the outcome. */
  function MergeAll(media: seq<Show>, api: Api): (r: Outcome<seq<Show>>)
    ensures r.Returns? ==> |r.value| == |media|
  {
    match Position(media, (s: Show) => !MergeShow(s, api).Returns?)
    case Some(i) => if MergeShow(media[i], api).Panics? then Panics else Hangs
    case None => Returns(seq(|media|, k requires 0 <= k < |media| => MergeShow(media[k], api).value))
  }

  // ----------------------------------------------------------- the loop

  /** The configuration `set_metadata` updates in place. */
  class Library {
    var media: seq<Show>

    constructor (media: seq<Show>)
      ensures this.media == media
    {
      this.media := media;
    }

    /** `set_metadata`. Runs the show loop in place; a panic or a search that
        would never return stops the loop and is reported in `status`. */
    method SetMetadata(api: Api) returns (status: Outcome<()>)
      modifies this
      ensures status.Returns? <==> MergeAll(old(media), api).Returns?
      ensures status.Panics? <==> MergeAll(old(media), api).Panics?
      ensures status.Returns? ==> media == MergeAll(old(media), api).value
    {
      var i := 0;
      while i < |media|
        invariant 0 <= i <= |media| == |old(media)|
        invariant forall k :: 0 <= k < i ==> MergeShow(old(media)[k], api) == Returns(media[k])
        invariant forall k :: i <= k < |media| ==> media[k] == old(media)[k]
      {
        var step := MergeShowStep(media[i], api);
        if !step.Returns? {
          FirstMatchUnique(old(media), (s: Show) => !MergeShow(s, api).Returns?, i);
          status := if step.Panics? then Panics else Hangs;
          return;
        }
        media := media[i := step.value];
        i := i + 1;
      }
      assert Position(old(media), (s: Show) => !MergeShow(s, api).Returns?).None?;
      assert media == MergeAll(old(media), api).value;
      status := Returns(());
    }
  }

  /** The body of the show loop of `set_metadata` on one show. */
  method MergeShowStep(show: Show, api: Api) returns (outcome: Outcome<Show>)
    ensures outcome == MergeShow(show, api)
  {
    var run := DirtyNameRun(api, show.name, Bound(show.name));
    if run.OutOfFuel? {
      return Hangs;
    }
    var tmdbShow := run.result.value;
    if tmdbShow.id.None? {
      return Returns(show);
    }
    var id := tmdbShow.id.value;
    var details := api.showDetails(id);
    if details.None? {
      return Returns(show);
    }
    var updated := show;
    if tmdbShow.name.Some? {
      updated := updated.(name := tmdbShow.name.value);
    }
    updated := updated.(description := tmdbShow.overview, originalName := tmdbShow.originalName,
                        airDate := tmdbShow.firstAirDate, rating := tmdbShow.rating);
    if details.value.seasons.None? {
      return Returns(updated);
    }
    var seasons, panicked := MergeSeasonList(updated.seasons, id, details.value.seasons.value, api);
    if panicked {
      return Panics;
    }
    return Returns(updated.(seasons := seasons));
  }

  /** The season loop of `set_metadata`, updating a copy of the list in
      place; `panicked` reports the `unwrap` on a missing season number. */
  method MergeSeasonList(seasons: seq<Season>, showId: int, tmdbSeasons: seq<SeasonSummary>, api: Api)
    returns (merged: seq<Season>, panicked: bool)
    ensures panicked <==> MergeSeasons(seasons, showId, tmdbSeasons, api).Panics?
    ensures !panicked ==> merged == MergeSeasons(seasons, showId, tmdbSeasons, api).value
  {
    merged := seasons;
    for i := 0 to |seasons|
      invariant |merged| == |seasons|
      invariant forall k :: 0 <= k < i ==> MergeSeason(seasons[k], showId, tmdbSeasons, api) == Returns(merged[k])
      invariant forall k :: i <= k < |seasons| ==> merged[k] == seasons[k]
    {
      var season := merged[i];
      var found := SeasonMatch(tmdbSeasons, season.number);
      if found.None? {
        continue;
      }
      var number := tmdbSeasons[found.value].seasonNumber;
      if number.None? {
        return merged, true;
      }
      var details := api.seasonDetails(showId, number.value);
      if details.None? {
        continue;
      }
      if details.value.name.Some? {
        season := season.(name := details.value.name.value);
      }
      season := season.(airDate := details.value.airDate);
      if details.value.episodes.Some? {
        var episodes := MergeEpisodeList(season.episodes, details.value.episodes.value);
        season := season.(episodes := episodes);
      }
      merged := merged[i := season];
    }
    panicked := false;
  }

  /** The episode loop of `set_metadata`, updating a copy of the list in place. */
  method MergeEpisodeList(episodes: seq<Episode>, tmdbEpisodes: seq<EpisodeSummary>) returns (merged: seq<Episode>)
    ensures merged == MergeEpisodes(episodes, tmdbEpisodes)
  {
    merged := episodes;
    for i := 0 to |episodes|
      invariant |merged| == |episodes|
      invariant forall k :: 0 <= k < i ==> merged[k] == MergeEpisode(episodes[k], tmdbEpisodes)
      invariant forall k :: i <= k < |episodes| ==> merged[k] == episodes[k]
    {
      var found := EpisodeMatch(tmdbEpisodes, merged[i].number);
      if found.Some? && tmdbEpisodes[found.value].name.Some? {
        merged := merged[i := merged[i].(name := tmdbEpisodes[found.value].name.value)];
      }
    }
  }

  // ---------------------------------------------------------- properties

  /** An episode keeps its number and path. Its name is replaced only by
      the name of the first listed episode with its number (missing read as
      0), and only when that name is present. */
  lemma MergeEpisodeRule(e: Episode, tmdbEpisodes: seq<EpisodeSummary>, i: nat)
    requires i < |tmdbEpisodes| && tmdbEpisodes[i].episodeNumber.GetOr(0) == e.number
    requires forall j :: 0 <= j < i ==> tmdbEpisodes[j].episodeNumber.GetOr(0) != e.number
    ensures MergeEpisode(e, tmdbEpisodes) == e.(name := tmdbEpisodes[i].name.GetOr(e.name))
  {
    FirstMatchUnique(tmdbEpisodes, (t: EpisodeSummary) => t.episodeNumber.GetOr(0) == e.number, i);
  }

  /** An episode without a listed counterpart is left as it is. */
  lemma MergeEpisodeUnmatched(e: Episode, tmdbEpisodes: seq<EpisodeSummary>)
    requires forall j :: 0 <= j < |tmdbEpisodes| ==> tmdbEpisodes[j].episodeNumber.GetOr(0) != e.number
    ensures MergeEpisode(e, tmdbEpisodes) == e
  {
  }

  /** Merging the same episode list twice is the same as merging it once. */
  lemma MergeEpisodesIdempotent(episodes: seq<Episode>, tmdbEpisodes: seq<EpisodeSummary>)
    ensures MergeEpisodes(MergeEpisodes(episodes, tmdbEpisodes), tmdbEpisodes) == MergeEpisodes(episodes, tmdbEpisodes)
  {
    var once := MergeEpisodes(episodes, tmdbEpisodes);
    forall k | 0 <= k < |episodes| ensures MergeEpisode(once[k], tmdbEpisodes) == once[k] {
      assert once[k].number == episodes[k].number;
    }
  }

  /** A season matched by the first listed season with its number (missing
      read as 0): a missing listed number panics; a failed fetch leaves the
      season as it is; otherwise the name is replaced when present, the air
      date always, and the episodes are merged when the fetch lists them. */
  lemma MergeSeasonRule(s: Season, showId: int, tmdbSeasons: seq<SeasonSummary>, api: Api, i: nat)
    requires i < |tmdbSeasons| && tmdbSeasons[i].seasonNumber.GetOr(0) == s.number
    requires forall j :: 0 <= j < i ==> tmdbSeasons[j].seasonNumber.GetOr(0) != s.number
    ensures tmdbSeasons[i].seasonNumber.None? ==> MergeSeason(s, showId, tmdbSeasons, api) == Panics && s.number == 0
    ensures tmdbSeasons[i].seasonNumber.Some? ==>
      var fetched := api.seasonDetails(showId, tmdbSeasons[i].seasonNumber.value);
      match fetched
      case None => MergeSeason(s, showId, tmdbSeasons, api) == Returns(s)
      case Some(d) =>
        MergeSeason(s, showId, tmdbSeasons, api) == Returns(Season(
          s.number,
          d.name.GetOr(s.name),
          d.airDate,
          if d.episodes.Some? then MergeEpisodes(s.episodes, d.episodes.value) else s.episodes))
  {
    FirstMatchUnique(tmdbSeasons, (t: SeasonSummary) => t.seasonNumber.GetOr(0) == s.number, i);
  }

  /** A season without a listed counterpart is left as it is. */
  lemma MergeSeasonUnmatched(s: Season, showId: int, tmdbSeasons: seq<SeasonSummary>, api: Api)
    requires forall j :: 0 <= j < |tmdbSeasons| ==> tmdbSeasons[j].seasonNumber.GetOr(0) != s.number
    ensures MergeSeason(s, showId, tmdbSeasons, api) == Returns(s)
  {
  }

  /** Merging a merged season again against the same database changes
      nothing. */
  lemma MergeSeasonIdempotent(s: Season, showId: int, tmdbSeasons: seq<SeasonSummary>, api: Api)
    requires MergeSeason(s, showId, tmdbSeasons, api).Returns?
    ensures var once := MergeSeason(s, showId, tmdbSeasons, api).value;
      MergeSeason(once, showId, tmdbSeasons, api) == Returns(once)
  {
    var once := MergeSeason(s, showId, tmdbSeasons, api).value;
    match SeasonMatch(tmdbSeasons, s.number)
    case None =>
    case Some(i) =>
      match api.seasonDetails(showId, tmdbSeasons[i].seasonNumber.value)
      case None =>
      case Some(d) =>
        if d.episodes.Some? {
          MergeEpisodesIdempotent(s.episodes, d.episodes.value);
        }
  }

  // ------------------------------------------------------------- shape

  predicate SameEpisodeShape(a: Episode, b: Episode) {
    a.number == b.number && a.path == b.path
  }

  predicate SameSeasonShape(a: Season, b: Season) {
    a.number == b.number && |a.episodes| == |b.episodes|
    && forall k :: 0 <= k < |a.episodes| ==> SameEpisodeShape(a.episodes[k], b.episodes[k])
  }

  predicate SameShowShape(a: Show, b: Show) {
    |a.seasons| == |b.seasons|
    && forall k :: 0 <= k < |a.seasons| ==> SameSeasonShape(a.seasons[k], b.seasons[k])
  }

  /** Same number of shows, seasons per show and episodes per season, with
      the same season and episode numbers and episode paths. */
  predicate SameShape(a: seq<Show>, b: seq<Show>) {
    |a| == |b| && forall k :: 0 <= k < |a| ==> SameShowShape(a[k], b[k])
  }

  lemma MergeSeasonShape(s: Season, showId: int, tmdbSeasons: seq<SeasonSummary>, api: Api)
    requires MergeSeason(s, showId, tmdbSeasons, api).Returns?
    ensures SameSeasonShape(s, MergeSeason(s, showId, tmdbSeasons, api).value)
  {
  }

  lemma MergeShowShape(show: Show, api: Api)
    requires MergeShow(show, api).Returns?
    ensures SameShowShape(show, MergeShow(show, api).value)
  {
    var run := DirtyNameRun(api, show.name, Bound(show.name));
    var tmdbShow := run.result.value;
    if tmdbShow.id.Some? && api.showDetails(tmdbShow.id.value).Some? {
      var details := api.showDetails(tmdbShow.id.value).value;
      if details.seasons.Some? {
        var id := tmdbShow.id.value;
        forall k | 0 <= k < |show.seasons|
          ensures MergeSeason(show.seasons[k], id, details.seasons.value, api).Returns?
        {
          assert !MergeSeason(show.seasons[k], id, details.seasons.value, api).Panics?;
        }
        forall k | 0 <= k < |show.seasons|
          ensures SameSeasonShape(show.seasons[k], MergeShow(show, api).value.seasons[k])
        {
          MergeSeasonShape(show.seasons[k], id, details.seasons.value, api);
        }
      }
    }
  }

  /** `set_metadata` never adds or removes shows, seasons or episodes, and
      never renumbers them or changes an episode's path. */
  lemma MergeAllShape(media: seq<Show>, api: Api)
    requires MergeAll(media, api).Returns?
    ensures SameShape(media, MergeAll(media, api).value)
  {
    forall k | 0 <= k < |media| ensures SameShowShape(media[k], MergeAll(media, api).value[k]) {
      assert MergeShow(media[k], api).Returns?;
      MergeShowShape(media[k], api);
    }
  }

  // --------------------------------------------------------- show rules

  /** A show stays exactly as it is when the search hit has no id or its
      details cannot be fetched; the step never returns when no search
      attempt ever finds anything. */
  lemma MergeShowUntouched(show: Show, api: Api)
    ensures MergeShow(show, api).Hangs? <==> forall k: nat :: Miss(api, show.name, k)
    ensures var run := DirtyNameRun(api, show.name, Bound(show.name));
      run.Returned? && (run.result.value.id.None? || api.showDetails(run.result.value.id.value).None?)
      ==> MergeShow(show, api) == Returns(show)
  {
    HangsIffEveryAttemptMisses(api, show.name);
  }

  /** Once the details are fetched, the name is replaced only when the hit
      carries one, while description, original name, air date and rating
      are replaced unconditionally, with absent values too; without a
      season list the seasons stay as they are. */
  lemma MergeShowFields(show: Show, api: Api)
    requires MergeShow(show, api).Returns?
    requires DirtyNameRun(api, show.name, Bound(show.name)).Returned?
    requires var hit := DirtyNameRun(api, show.name, Bound(show.name)).result.value;
      hit.id.Some? && api.showDetails(hit.id.value).Some?
    ensures var hit := DirtyNameRun(api, show.name, Bound(show.name)).result.value;
      var r := MergeShow(show, api).value;
      && r.name == hit.name.GetOr(show.name)
      && r.description == hit.overview
      && r.originalName == hit.originalName
      && r.airDate == hit.firstAirDate
      && r.rating == hit.rating
      && (api.showDetails(hit.id.value).value.seasons.None? ==> r.seasons == show.seasons)
      && (api.showDetails(hit.id.value).value.seasons.Some? ==>
            forall k :: 0 <= k < |show.seasons| ==>
              MergeSeason(show.seasons[k], hit.id.value, api.showDetails(hit.id.value).value.seasons.value, api)
                == Returns(r.seasons[k]))
  {
  }

  /** Enriching an enriched show again changes nothing as long as the
      search for its new name finds the same hit as the search for the old
      one: the fields are overwritten with the same values, and every
      season merges to itself. */
  lemma MergeShowIdempotentWhenSameHit(show: Show, api: Api)
    requires MergeShow(show, api).Returns?
    requires var once := MergeShow(show, api).value;
      DirtyNameRun(api, once.name, Bound(once.name)) == DirtyNameRun(api, show.name, Bound(show.name))
    ensures MergeShow(MergeShow(show, api).value, api) == MergeShow(show, api)
  {
    var once := MergeShow(show, api).value;
    var tmdbShow := DirtyNameRun(api, show.name, Bound(show.name)).result.value;
    if tmdbShow.id.Some? && api.showDetails(tmdbShow.id.value).Some? {
      var id := tmdbShow.id.value;
      var details := api.showDetails(id).value;
      if details.seasons.Some? {
        var tmdbSeasons := details.seasons.value;
        forall k | 0 <= k < |show.seasons|
          ensures MergeSeason(show.seasons[k], id, tmdbSeasons, api).Returns?
        {
          assert !MergeSeason(show.seasons[k], id, tmdbSeasons, api).Panics?;
        }
        assert once.seasons == MergeSeasons(show.seasons, id, tmdbSeasons, api).value;
        forall k | 0 <= k < |once.seasons|
          ensures MergeSeason(once.seasons[k], id, tmdbSeasons, api) == Returns(once.seasons[k])
        {
          assert once.seasons[k] == MergeSeason(show.seasons[k], id, tmdbSeasons, api).value;
          MergeSeasonIdempotent(show.seasons[k], id, tmdbSeasons, api);
        }
        MergeSeasonsFixed(once.seasons, id, tmdbSeasons, api);
      }
    }
  }

  /** Seasons that each merge to themselves merge, as a list, to themselves. */
  lemma MergeSeasonsFixed(seasons: seq<Season>, showId: int, tmdbSeasons: seq<SeasonSummary>, api: Api)
    requires forall k :: 0 <= k < |seasons| ==> MergeSeason(seasons[k], showId, tmdbSeasons, api) == Returns(seasons[k])
    ensures MergeSeasons(seasons, showId, tmdbSeasons, api) == Returns(seasons)
  {
    var r := MergeSeasons(seasons, showId, tmdbSeasons, api);
    assert r.Returns?;
    assert |r.value| == |seasons|;
    forall k | 0 <= k < |seasons| ensures r.value[k] == seasons[k] {
      assert r.value[k] == MergeSeason(seasons[k], showId, tmdbSeasons, api).value;
    }
    assert r.value == seasons;
  }

  /** Enriching is not idempotent in general: the name is overwritten with
      the hit's name, and a second pass searches for that new name. A show
      "A" whose search finds a show named "B", whose own search finds one
      named "C", is renamed "B" and then "C". */
  lemma RenamedShowSearchedAgain(show: Show, api: Api)
    requires show.name == "A"
    requires api.search("A") == Some([TvObject(Some(1), Some("B"), None, None, None, None)])
    requires api.search("B") == Some([TvObject(Some(2), Some("C"), None, None, None, None)])
    requires api.showDetails(1) == Some(TvDetails(None)) && api.showDetails(2) == Some(TvDetails(None))
    ensures var once := MergeShow(show, api);
      && once.Returns? && once.value.name == "B"
      && MergeShow(once.value, api).Returns? && MergeShow(once.value, api).value.name == "C"
      && MergeShow(once.value, api) != once
  {
    assert DirtyNameRun(api, "A", Bound("A")) == Returned(Some(TvObject(Some(1), Some("B"), None, None, None, None)));
    assert DirtyNameRun(api, "B", Bound("B")) == Returned(Some(TvObject(Some(2), Some("C"), None, None, None, None)));
  }

  /** The whole run returns exactly when every show's step returns, and then
      each show is replaced by its step's result; otherwise the first show
      whose step does not return decides between panic and hang. */
  lemma MergeAllSteps(media: seq<Show>, api: Api)
    ensures MergeAll(media, api).Returns? <==> forall k :: 0 <= k < |media| ==> MergeShow(media[k], api).Returns?
    ensures MergeAll(media, api).Returns? ==>
      forall k :: 0 <= k < |media| ==> MergeShow(media[k], api) == Returns(MergeAll(media, api).value[k])
    ensures !MergeAll(media, api).Returns? ==>
      exists i :: (0 <= i < |media| && !MergeShow(media[i], api).Returns?
                   && (forall k :: 0 <= k < i ==> MergeShow(media[k], api).Returns?)
                   && MergeShow(media[i], api).Panics? == MergeAll(media, api).Panics?)
  {
  }

  lemma PanicNeedsSeasonZero(seasons: seq<Season>, showId: int, tmdbSeasons: seq<SeasonSummary>, api: Api)
    requires MergeSeasons(seasons, showId, tmdbSeasons, api).Panics?
    ensures exists k :: 0 <= k < |seasons| && seasons[k].number == 0
  {
    var k :| 0 <= k < |seasons| && MergeSeason(seasons[k], showId, tmdbSeasons, api).Panics?;
    var i := SeasonMatch(tmdbSeasons, seasons[k].number).value;
    assert tmdbSeasons[i].seasonNumber.None?;
  }
}

/** The retry sequence of the title search on one concrete release name. */
module MetadataExamples {
  import opened Common
  import opened Metadata

  lemma ReleaseNameWords(name: string)
    requires name == "Foo Bar S02 1080p"
    ensures SplitWhitespace(name) == ["Foo", "Bar", "S02", "1080p"]
  {
    var ws := ["Foo", "Bar", "S02", "1080p"];
    assert Join(ws, ' ') == name;
    SplitJoinWords(ws);
  }

  lemma JoinTwo(a: string, b: string)
    ensures Join([a, b], ' ') == a + " " + b
  {
    assert [a, b][1..] == [b];
  }

  lemma JoinThree(a: string, b: string, c: string)
    ensures Join([a, b, c], ' ') == a + " " + b + " " + c
  {
    assert [a, b, c][1..] == [b, c];
    JoinTwo(b, c);
  }

  /** The first retry searches for "Foo Bar S02". */
  lemma FirstRetry(name: string)
    requires name == "Foo Bar S02 1080p"
    ensures QueryAt(name, 1) == "Foo Bar S02"
  {
    ReleaseNameWords(name);
    QueryClosedForm(name, 1);
    assert ["Foo", "Bar", "S02", "1080p"][..3] == ["Foo", "Bar", "S02"];
    JoinThree("Foo", "Bar", "S02");
  }

  /** The second retry searches for "Foo Bar". */
  lemma SecondRetry(name: string)
    requires name == "Foo Bar S02 1080p"
    ensures QueryAt(name, 2) == "Foo Bar"
  {
    ReleaseNameWords(name);
    QueryClosedForm(name, 2);
    assert ["Foo", "Bar", "S02", "1080p"][..2] == ["Foo", "Bar"];
    JoinTwo("Foo", "Bar");
  }

  /** The third retry searches for "Foo". */
  lemma ThirdRetry(name: string)
    requires name == "Foo Bar S02 1080p"
    ensures QueryAt(name, 3) == "Foo"
  {
    ReleaseNameWords(name);
    QueryClosedForm(name, 3);
    assert ["Foo", "Bar", "S02", "1080p"][..1] == ["Foo"];
  }

  /** Every retry from the fourth on searches for the empty string. */
  lemma LaterRetries(name: string, k: nat)
    requires name == "Foo Bar S02 1080p" && k >= 4
    ensures QueryAt(name, k) == ""
  {
    ReleaseNameWords(name);
    QueriesReachEmpty(name, k);
  }
}
