/** The catalogue builder of src/main.rs (`build_config`): every media file
    is folded into a list of shows, each show into seasons, each season into
    episodes, finding an entry by its key or appending a new one. */
module Catalogue {
  import opened Common

  datatype Episode = Episode(number: int, path: string)
  datatype Season = Season(number: int, episodes: seq<Episode>)
  datatype Show = Show(title: string, seasons: seq<Season>)

  /** What the release-name extractor (`torrent_name_parser`) reports for a
      file name; its heuristics are not modelled, it is a parameter. */
  datatype ReleaseInfo = ReleaseInfo(title: string, season: Option<int>, episode: Option<int>)

  // ------------------------------------------------------- invariants

  predicate UniqueEpisodeNumbers(eps: seq<Episode>) {
    forall i, j :: 0 <= i < j < |eps| ==> eps[i].number != eps[j].number
  }

  predicate UniqueSeasons(seasons: seq<Season>) {
    (forall i, j :: 0 <= i < j < |seasons| ==> seasons[i].number != seasons[j].number)
    && forall i :: 0 <= i < |seasons| ==> UniqueEpisodeNumbers(seasons[i].episodes)
  }

  /** No two shows share a title, no two seasons of a show share a number,
      no two episodes of a season share a number. */
  predicate WellFormed(media: seq<Show>) {
    (forall i, j :: 0 <= i < j < |media| ==> media[i].title != media[j].title)
    && forall i :: 0 <= i < |media| ==> UniqueSeasons(media[i].seasons)
  }

  predicate HasEpisode(eps: seq<Episode>, number: int) {
    exists k :: 0 <= k < |eps| && eps[k].number == number
  }

  predicate SeasonHasEpisode(seasons: seq<Season>, season: int, episode: int) {
    exists j :: 0 <= j < |seasons| && seasons[j].number == season && HasEpisode(seasons[j].episodes, episode)
  }

  /** The catalogue holds show `title` / season `season` / episode `episode`. */
  predicate Catalogued(media: seq<Show>, title: string, season: int, episode: int) {
    exists i :: 0 <= i < |media| && media[i].title == title && SeasonHasEpisode(media[i].seasons, season, episode)
  }

  predicate HasSeason(media: seq<Show>, title: string, season: int) {
    exists i :: 0 <= i < |media| && media[i].title == title
      && exists j :: 0 <= j < |media[i].seasons| && media[i].seasons[j].number == season
  }

  /** `b` is `a` with entries appended at some levels: nothing in `a` is
      removed, reordered, renamed or renumbered, and episodes are kept whole. */
  predicate Extends(a: seq<Show>, b: seq<Show>) {
    |a| <= |b|
    && forall i :: 0 <= i < |a| ==> b[i].title == a[i].title && SeasonsExtend(a[i].seasons, b[i].seasons)
  }

  predicate SeasonsExtend(a: seq<Season>, b: seq<Season>) {
    |a| <= |b|
    && forall j :: 0 <= j < |a| ==>
         (b[j].number == a[j].number
          && |a[j].episodes| <= |b[j].episodes| && b[j].episodes[..|a[j].episodes|] == a[j].episodes)
  }

  function Titles(media: seq<Show>): (r: seq<string>)
    ensures |r| == |media| && forall i :: 0 <= i < |media| ==> r[i] == media[i].title
  {
    seq(|media|, i requires 0 <= i < |media| => media[i].title)
  }

  function SeasonCountOf(show: Show): nat {
    |show.seasons|
  }

  function EpisodeCountOfSeason(season: Season): nat {
    |season.episodes|
  }

  function EpisodeCountOf(show: Show): nat {
    SumOf(show.seasons, EpisodeCountOfSeason)
  }

  // ------------------------------------------------------ one file

  function ShowPosition(media: seq<Show>, title: string): Option<nat> {
    Position(media, (sh: Show) => sh.title == title)
  }

  function SeasonPosition(seasons: seq<Season>, number: int): Option<nat> {
    Position(seasons, (s: Season) => s.number == number)
  }

  function EpisodePosition(eps: seq<Episode>, number: int): Option<nat> {
    Position(eps, (e: Episode) => e.number == number)
  }

  /** Show level: the index of the show titled `title`, appending an empty
      show with that title when there is none. */
  function FindOrCreateShow(media: seq<Show>, title: string): (r: (seq<Show>, nat))
    ensures r.1 < |r.0|
  {
    match ShowPosition(media, title)
    case Some(i) => (media, i)
    case None => (media + [Show(title, [])], |media|)
  }

  /** Season level: the index of season `number`, appending an empty season
      when there is none. */
  function FindOrCreateSeason(seasons: seq<Season>, number: int): (r: (seq<Season>, nat))
    ensures r.1 < |r.0|
  {
    match SeasonPosition(seasons, number)
    case Some(j) => (seasons, j)
    case None => (seasons + [Season(number, [])], |seasons|)
  }

  /** Episode level: a file whose episode number is already present is
      dropped; otherwise it is appended. */
  function AddEpisode(eps: seq<Episode>, number: int, path: string): seq<Episode> {
    if EpisodePosition(eps, number).Some? then eps else eps + [Episode(number, path)]
  }

  function AddToSeasons(seasons: seq<Season>, season: int, episode: int, path: string): seq<Season> {
    var (ss, j) := FindOrCreateSeason(seasons, season);
    ss[j := ss[j].(episodes := AddEpisode(ss[j].episodes, episode, path))]
  }

  /** One iteration of the loop in `build_config`: a missing season or
      episode number counts as 0. */
  function AddFile(media: seq<Show>, info: ReleaseInfo, path: string): seq<Show> {
    var (shows, i) := FindOrCreateShow(media, info.title);
    shows[i := shows[i].(seasons := AddToSeasons(shows[i].seasons, info.season.GetOr(0), info.episode.GetOr(0), path))]
  }

  // ------------------------------------------------ one-file properties

  predicate NumberedSeason(seasons: seq<Season>, number: int) {
    exists j :: 0 <= j < |seasons| && seasons[j].number == number
  }

  lemma AddEpisodeFacts(eps: seq<Episode>, number: int, path: string)
    ensures var r := AddEpisode(eps, number, path);
      && HasEpisode(r, number)
      && |eps| <= |r| && r[..|eps|] == eps
      && |r| == |eps| + (if HasEpisode(eps, number) then 0 else 1)
      && (HasEpisode(eps, number) ==> r == eps)
      && (!HasEpisode(eps, number) ==> r == eps + [Episode(number, path)])
      && (UniqueEpisodeNumbers(eps) ==> UniqueEpisodeNumbers(r))
  {
    var r := AddEpisode(eps, number, path);
    if !HasEpisode(eps, number) {
      assert r[|eps|].number == number;
    } else {
      var k :| 0 <= k < |eps| && eps[k].number == number;
      assert EpisodePosition(eps, number).Some?;
    }
    assert r[..|eps|] == eps;
  }

  lemma FindOrCreateSeasonFacts(seasons: seq<Season>, number: int)
    ensures var (ss, j) := FindOrCreateSeason(seasons, number);
      && ss[j].number == number
      && |seasons| <= |ss| && ss[..|seasons|] == seasons
      && |ss| == |seasons| + (if NumberedSeason(seasons, number) then 0 else 1)
      && (j >= |seasons| ==> ss[j].episodes == [])
      && (NumberedSeason(seasons, number) <==> j < |seasons|)
  {
    var (ss, j) := FindOrCreateSeason(seasons, number);
    match SeasonPosition(seasons, number)
    case Some(k) =>
      assert ss == seasons && j == k;
    case None =>
      assert ss == seasons + [Season(number, [])] && j == |seasons|;
      assert ss[..|seasons|] == seasons;
  }

  lemma FindOrCreateSeasonUnique(seasons: seq<Season>, number: int)
    requires UniqueSeasons(seasons)
    ensures UniqueSeasons(FindOrCreateSeason(seasons, number).0)
  {
    var (ss, j) := FindOrCreateSeason(seasons, number);
    if j == |seasons| {
      assert ss == seasons + [Season(number, [])];
      assert forall k :: 0 <= k < |seasons| ==> seasons[k].number != number;
    }
  }

  lemma UniqueSeasonsUpdate(ss: seq<Season>, j: nat, x: Season)
    requires UniqueSeasons(ss) && j < |ss|
    requires x.number == ss[j].number && UniqueEpisodeNumbers(x.episodes)
    ensures UniqueSeasons(ss[j := x])
  {
    var r := ss[j := x];
    forall k | 0 <= k < |r| ensures r[k].number == ss[k].number && UniqueEpisodeNumbers(r[k].episodes) {
      if k != j {
        assert r[k] == ss[k];
      }
    }
  }

  lemma AddToSeasonsUnique(seasons: seq<Season>, season: int, episode: int, path: string)
    requires UniqueSeasons(seasons)
    ensures UniqueSeasons(AddToSeasons(seasons, season, episode, path))
  {
    var (ss, j) := FindOrCreateSeason(seasons, season);
    FindOrCreateSeasonUnique(seasons, season);
    AddEpisodeFacts(ss[j].episodes, episode, path);
    UniqueSeasonsUpdate(ss, j, ss[j].(episodes := AddEpisode(ss[j].episodes, episode, path)));
  }

  lemma AddToSeasonsFiles(seasons: seq<Season>, season: int, episode: int, path: string)
    ensures SeasonHasEpisode(AddToSeasons(seasons, season, episode, path), season, episode)
  {
    var (ss, j) := FindOrCreateSeason(seasons, season);
    assert ss[j].number == season;
    AddEpisodeFacts(ss[j].episodes, episode, path);
    var r := AddToSeasons(seasons, season, episode, path);
    assert r[j].number == season && HasEpisode(r[j].episodes, episode);
  }

  lemma AddToSeasonsExtends(seasons: seq<Season>, season: int, episode: int, path: string)
    ensures SeasonsExtend(seasons, AddToSeasons(seasons, season, episode, path))
  {
    match SeasonPosition(seasons, season)
    case None =>
      var added := Season(season, [Episode(episode, path)]);
      assert AddEpisode([], episode, path) == added.episodes;
      assert (seasons + [Season(season, [])])[|seasons| := added] == seasons + [added];
      SeasonsExtendAppend(seasons, added);
    case Some(j) =>
      var eps := seasons[j].episodes;
      AddEpisodeFacts(eps, episode, path);
      SeasonsExtendUpdate(seasons, j, seasons[j].(episodes := AddEpisode(eps, episode, path)));
  }

  lemma SeasonsExtendAppend(seasons: seq<Season>, x: Season)
    ensures SeasonsExtend(seasons, seasons + [x])
  {
    forall k | 0 <= k < |seasons| ensures (seasons + [x])[k] == seasons[k] { }
  }

  lemma SeasonsExtendUpdate(seasons: seq<Season>, j: nat, x: Season)
    requires j < |seasons| && x.number == seasons[j].number
    requires |seasons[j].episodes| <= |x.episodes| && x.episodes[..|seasons[j].episodes|] == seasons[j].episodes
    ensures SeasonsExtend(seasons, seasons[j := x])
  {
    var r := seasons[j := x];
    forall k | 0 <= k < |seasons| && k != j ensures r[k] == seasons[k] { }
  }

  lemma AddToSeasonsCounts(seasons: seq<Season>, season: int, episode: int, path: string)
    requires UniqueSeasons(seasons)
    ensures var r := AddToSeasons(seasons, season, episode, path);
      && |r| == |seasons| + (if NumberedSeason(seasons, season) then 0 else 1)
      && SumOf(r, EpisodeCountOfSeason)
         == SumOf(seasons, EpisodeCountOfSeason) + (if SeasonHasEpisode(seasons, season, episode) then 0 else 1)
  {
    match SeasonPosition(seasons, season)
    case None =>
      NewSeasonCounts(seasons, season, episode, path);
    case Some(j) =>
      FoundSeasonCounts(seasons, season, episode, path, j);
  }

  lemma NewSeasonCounts(seasons: seq<Season>, season: int, episode: int, path: string)
    requires SeasonPosition(seasons, season).None?
    ensures var r := AddToSeasons(seasons, season, episode, path);
      && |r| == |seasons| + 1 && !NumberedSeason(seasons, season)
      && !SeasonHasEpisode(seasons, season, episode)
      && SumOf(r, EpisodeCountOfSeason) == SumOf(seasons, EpisodeCountOfSeason) + 1
  {
    var added := Season(season, [Episode(episode, path)]);
    assert AddEpisode([], episode, path) == added.episodes;
    assert (seasons + [Season(season, [])])[|seasons| := added] == seasons + [added];
    assert AddToSeasons(seasons, season, episode, path) == seasons + [added];
    SumOfAppend(seasons, EpisodeCountOfSeason, added);
  }

  lemma FoundSeasonCounts(seasons: seq<Season>, season: int, episode: int, path: string, j: nat)
    requires UniqueSeasons(seasons)
    requires SeasonPosition(seasons, season) == Some(j)
    ensures var r := AddToSeasons(seasons, season, episode, path);
      && |r| == |seasons| && NumberedSeason(seasons, season)
      && SumOf(r, EpisodeCountOfSeason)
         == SumOf(seasons, EpisodeCountOfSeason) + (if SeasonHasEpisode(seasons, season, episode) then 0 else 1)
  {
    var eps := seasons[j].episodes;
    AddEpisodeFacts(eps, episode, path);
    var r := AddToSeasons(seasons, season, episode, path);
    assert r == seasons[j := seasons[j].(episodes := AddEpisode(eps, episode, path))];
    SumOfUpdate(seasons, EpisodeCountOfSeason, j, r[j]);
    if SeasonHasEpisode(seasons, season, episode) {
      var j' :| 0 <= j' < |seasons| && seasons[j'].number == season && HasEpisode(seasons[j'].episodes, episode);
      assert j' == j;
    }
  }

  lemma FindOrCreateShowFacts(media: seq<Show>, title: string)
    ensures var (shows, i) := FindOrCreateShow(media, title);
      && shows[i].title == title
      && |media| <= |shows| && shows[..|media|] == media
      && |shows| == |media| + (if title in Titles(media) then 0 else 1)
      && (i >= |media| ==> shows[i].seasons == [])
      && (WellFormed(media) ==> WellFormed(shows))
      && (i < |media| <==> title in Titles(media))
  {
    var (shows, i) := FindOrCreateShow(media, title);
    match ShowPosition(media, title)
    case Some(k) =>
      assert shows == media && i == k;
      assert Titles(media)[k] == title;
    case None =>
      assert shows == media + [Show(title, [])] && i == |media|;
      assert shows[..|media|] == media;
      assert forall k :: 0 <= k < |media| ==> media[k].title != title;
      assert title !in Titles(media);
  }

  /** One file keeps every uniqueness invariant. */
  lemma AddFileWellFormed(media: seq<Show>, info: ReleaseInfo, path: string)
    requires WellFormed(media)
    ensures WellFormed(AddFile(media, info, path))
  {
    var (shows, i) := FindOrCreateShow(media, info.title);
    FindOrCreateShowFacts(media, info.title);
    AddToSeasonsUnique(shows[i].seasons, info.season.GetOr(0), info.episode.GetOr(0), path);
  }

  /** After one file the catalogue holds its title, season and episode,
      with a missing season or episode number taken as 0. */
  lemma AddFileFiles(media: seq<Show>, info: ReleaseInfo, path: string)
    ensures Catalogued(AddFile(media, info, path), info.title, info.season.GetOr(0), info.episode.GetOr(0))
  {
    var (shows, i) := FindOrCreateShow(media, info.title);
    FindOrCreateShowFacts(media, info.title);
    AddToSeasonsFiles(shows[i].seasons, info.season.GetOr(0), info.episode.GetOr(0), path);
    var r := AddFile(media, info, path);
    assert r[i].title == info.title;
  }

  /** One file only appends: existing shows, seasons and episodes keep
      their place and their keys, and episodes are never changed. */
  lemma AddFileExtends(media: seq<Show>, info: ReleaseInfo, path: string)
    ensures Extends(media, AddFile(media, info, path))
  {
    var (shows, i) := FindOrCreateShow(media, info.title);
    FindOrCreateShowFacts(media, info.title);
    AddToSeasonsExtends(shows[i].seasons, info.season.GetOr(0), info.episode.GetOr(0), path);
    var r := AddFile(media, info, path);
    forall k | 0 <= k < |media|
      ensures r[k].title == media[k].title && SeasonsExtend(media[k].seasons, r[k].seasons)
    {
      assert shows[k] == media[k];
      if k != i {
        SeasonsExtendReflexive(media[k].seasons);
      }
    }
  }

  lemma SeasonsExtendReflexive(seasons: seq<Season>)
    ensures SeasonsExtend(seasons, seasons)
  {
    forall j | 0 <= j < |seasons| ensures seasons[j].episodes[..|seasons[j].episodes|] == seasons[j].episodes { }
  }

  /** In a well-formed catalogue the show titled `title` is the one at `i`,
      so title-level facts reduce to facts about `media[i]`. */
  lemma AtTitledShow(media: seq<Show>, title: string, season: int, episode: int, i: nat)
    requires WellFormed(media) && i < |media| && media[i].title == title
    ensures HasSeason(media, title, season) <==> NumberedSeason(media[i].seasons, season)
    ensures Catalogued(media, title, season, episode) <==> SeasonHasEpisode(media[i].seasons, season, episode)
  {
    if HasSeason(media, title, season) {
      var i' :| 0 <= i' < |media| && media[i'].title == title
        && exists j :: 0 <= j < |media[i'].seasons| && media[i'].seasons[j].number == season;
      assert i' == i;
    }
    if Catalogued(media, title, season, episode) {
      var i' :| 0 <= i' < |media| && media[i'].title == title && SeasonHasEpisode(media[i'].seasons, season, episode);
      assert i' == i;
    }
  }

  /** Without a show titled `title` nothing is filed under it. */
  lemma NoTitledShow(media: seq<Show>, title: string, season: int, episode: int)
    requires title !in Titles(media)
    ensures !HasSeason(media, title, season) && !Catalogued(media, title, season, episode)
  {
    assert forall i :: 0 <= i < |media| ==> media[i].title != title by {
      forall i | 0 <= i < |media| ensures media[i].title != title {
        assert Titles(media)[i] == media[i].title;
      }
    }
  }

  lemma AddFileSeasonCount(media: seq<Show>, info: ReleaseInfo, path: string)
    requires WellFormed(media)
    ensures SumOf(AddFile(media, info, path), SeasonCountOf)
         == SumOf(media, SeasonCountOf) + (if HasSeason(media, info.title, info.season.GetOr(0)) then 0 else 1)
  {
    var season := info.season.GetOr(0);
    var episode := info.episode.GetOr(0);
    var (shows, i) := FindOrCreateShow(media, info.title);
    FindOrCreateShowFacts(media, info.title);
    var seasons := AddToSeasons(shows[i].seasons, season, episode, path);
    AddToSeasonsCounts(shows[i].seasons, season, episode, path);
    var r := shows[i := shows[i].(seasons := seasons)];
    assert r == AddFile(media, info, path);
    SumOfUpdate(shows, SeasonCountOf, i, r[i]);
    if i == |media| {
      SumOfAppend(media, SeasonCountOf, shows[i]);
      NoTitledShow(media, info.title, season, episode);
    } else {
      AtTitledShow(media, info.title, season, episode, i);
    }
  }

  lemma AddFileEpisodeCount(media: seq<Show>, info: ReleaseInfo, path: string)
    requires WellFormed(media)
    ensures SumOf(AddFile(media, info, path), EpisodeCountOf)
         == SumOf(media, EpisodeCountOf)
            + (if Catalogued(media, info.title, info.season.GetOr(0), info.episode.GetOr(0)) then 0 else 1)
  {
    var season := info.season.GetOr(0);
    var episode := info.episode.GetOr(0);
    var (shows, i) := FindOrCreateShow(media, info.title);
    FindOrCreateShowFacts(media, info.title);
    var seasons := AddToSeasons(shows[i].seasons, season, episode, path);
    AddToSeasonsCounts(shows[i].seasons, season, episode, path);
    var r := shows[i := shows[i].(seasons := seasons)];
    assert r == AddFile(media, info, path);
    SumOfUpdate(shows, EpisodeCountOf, i, r[i]);
    if i == |media| {
      SumOfAppend(media, EpisodeCountOf, shows[i]);
      assert EpisodeCountOf(shows[i]) == 0;
      NoTitledShow(media, info.title, season, episode);
    } else {
      AtTitledShow(media, info.title, season, episode, i);
    }
  }

  /** One file adds a show exactly when its title is new, a season exactly
      when that show lacks its season number, and an episode exactly when
      the episode is not yet catalogued. */
  lemma AddFileCounts(media: seq<Show>, info: ReleaseInfo, path: string)
    requires WellFormed(media)
    ensures var r := AddFile(media, info, path);
      var season := info.season.GetOr(0);
      && |r| == |media| + (if info.title in Titles(media) then 0 else 1)
      && SumOf(r, SeasonCountOf) == SumOf(media, SeasonCountOf) + (if HasSeason(media, info.title, season) then 0 else 1)
      && SumOf(r, EpisodeCountOf)
         == SumOf(media, EpisodeCountOf) + (if Catalogued(media, info.title, season, info.episode.GetOr(0)) then 0 else 1)
  {
    FindOrCreateShowFacts(media, info.title);
    AddFileSeasonCount(media, info, path);
    AddFileEpisodeCount(media, info, path);
  }

  /** A new title goes to the end of the show list; a known one changes
      nothing in it. */
  lemma AddFileTitles(media: seq<Show>, info: ReleaseInfo, path: string)
    ensures Titles(AddFile(media, info, path))
         == if info.title in Titles(media) then Titles(media) else Titles(media) + [info.title]
  {
    var (shows, i) := FindOrCreateShow(media, info.title);
    FindOrCreateShowFacts(media, info.title);
    var r := AddFile(media, info, path);
    if info.title in Titles(media) {
      assert Titles(r) == Titles(media);
    } else {
      assert Titles(r) == Titles(media) + [info.title];
    }
  }

  /** A file whose title, season and episode are already catalogued leaves
      the catalogue exactly as it was: the later path is discarded. */
  lemma DuplicateEpisodeDropped(media: seq<Show>, info: ReleaseInfo, path: string)
    requires WellFormed(media)
    requires Catalogued(media, info.title, info.season.GetOr(0), info.episode.GetOr(0))
    ensures AddFile(media, info, path) == media
  {
    var season := info.season.GetOr(0);
    var episode := info.episode.GetOr(0);
    var i :| 0 <= i < |media| && media[i].title == info.title && SeasonHasEpisode(media[i].seasons, season, episode);
    FirstMatchUnique(media, (sh: Show) => sh.title == info.title, i);
    assert ShowPosition(media, info.title) == Some(i);
    DuplicateInSeasons(media[i].seasons, season, episode, path);
    assert media[i := media[i]] == media;
  }

  lemma DuplicateInSeasons(seasons: seq<Season>, season: int, episode: int, path: string)
    requires UniqueSeasons(seasons) && SeasonHasEpisode(seasons, season, episode)
    ensures AddToSeasons(seasons, season, episode, path) == seasons
  {
    var j :| 0 <= j < |seasons| && seasons[j].number == season && HasEpisode(seasons[j].episodes, episode);
    FirstMatchUnique(seasons, (s: Season) => s.number == season, j);
    assert SeasonPosition(seasons, season) == Some(j);
    assert EpisodePosition(seasons[j].episodes, episode).Some?;
    assert seasons[j := seasons[j]] == seasons;
  }

  // ---------------------------------------------------------- the fold

  /** `path.file_name()`: the last `/`-separated piece of the path. */
  function FileName(path: string): string {
    var pieces := Split(path, '/');
    pieces[|pieces| - 1]
  }

  /** The extractor succeeds on the file name of every path (the source
      unwraps its result). */
  predicate Extractable(paths: seq<string>, extract: string -> Option<ReleaseInfo>) {
    forall i :: 0 <= i < |paths| ==> extract(FileName(paths[i])).Some?
  }

  /** The catalogue after folding all paths, in order, into an empty one. */
  function Build(paths: seq<string>, extract: string -> Option<ReleaseInfo>): seq<Show>
    requires Extractable(paths, extract)
  {
    if |paths| == 0 then []
    else
      var last := paths[|paths| - 1];
      AddFile(Build(paths[..|paths| - 1], extract), extract(FileName(last)).value, last)
  }

  /** The titles of the files, each kept at its first occurrence only. */
  function FirstOccurrences(s: seq<string>): (r: seq<string>)
  {
    if |s| == 0 then []
    else
      var prefix := FirstOccurrences(s[..|s| - 1]);
      if s[|s| - 1] in prefix then prefix else prefix + [s[|s| - 1]]
  }

  function TitlesOf(paths: seq<string>, extract: string -> Option<ReleaseInfo>): seq<string>
    requires Extractable(paths, extract)
  {
    seq(|paths|, i requires 0 <= i < |paths| => extract(FileName(paths[i])).value.title)
  }

  lemma ExtendsTransitive(a: seq<Show>, b: seq<Show>, c: seq<Show>)
    requires Extends(a, b) && Extends(b, c)
    ensures Extends(a, c)
  {
    forall i | 0 <= i < |a|
      ensures c[i].title == a[i].title && SeasonsExtend(a[i].seasons, c[i].seasons)
    {
      var sa, sb, sc := a[i].seasons, b[i].seasons, c[i].seasons;
      forall j | 0 <= j < |sa|
        ensures sc[j].number == sa[j].number && |sa[j].episodes| <= |sc[j].episodes|
          && sc[j].episodes[..|sa[j].episodes|] == sa[j].episodes
      {
        var ea, eb, ec := sa[j].episodes, sb[j].episodes, sc[j].episodes;
        assert ec[..|ea|] == ec[..|eb|][..|ea|];
      }
    }
  }

  lemma CataloguedKept(a: seq<Show>, b: seq<Show>, title: string, season: int, episode: int)
    requires Extends(a, b) && Catalogued(a, title, season, episode)
    ensures Catalogued(b, title, season, episode)
  {
    var i :| 0 <= i < |a| && a[i].title == title && SeasonHasEpisode(a[i].seasons, season, episode);
    var j :| 0 <= j < |a[i].seasons| && a[i].seasons[j].number == season && HasEpisode(a[i].seasons[j].episodes, episode);
    var k :| 0 <= k < |a[i].seasons[j].episodes| && a[i].seasons[j].episodes[k].number == episode;
    var eb := b[i].seasons[j].episodes;
    assert eb[k] == eb[..|a[i].seasons[j].episodes|][k];
    assert HasEpisode(eb, episode);
    assert SeasonHasEpisode(b[i].seasons, season, episode);
  }

  /** Building from any list of paths keeps every uniqueness invariant. */
  lemma {:induction false} BuildWellFormed(paths: seq<string>, extract: string -> Option<ReleaseInfo>)
    requires Extractable(paths, extract)
    ensures WellFormed(Build(paths, extract))
  {
    if |paths| > 0 {
      var n := |paths| - 1;
      BuildWellFormed(paths[..n], extract);
      AddFileWellFormed(Build(paths[..n], extract), extract(FileName(paths[n])).value, paths[n]);
    }
  }

  /** Every path ends up filed under its title, season and episode number
      (the episode entry may carry an earlier path with the same numbers). */
  lemma {:induction false} BuildFiles(paths: seq<string>, extract: string -> Option<ReleaseInfo>, p: nat)
    requires Extractable(paths, extract)
    requires p < |paths|
    ensures var info := extract(FileName(paths[p])).value;
      Catalogued(Build(paths, extract), info.title, info.season.GetOr(0), info.episode.GetOr(0))
  {
    var n := |paths| - 1;
    var before := Build(paths[..n], extract);
    var info := extract(FileName(paths[n])).value;
    if p == n {
      AddFileFiles(before, info, paths[n]);
    } else {
      assert paths[..n][p] == paths[p];
      BuildFiles(paths[..n], extract, p);
      AddFileExtends(before, info, paths[n]);
      var info' := extract(FileName(paths[p])).value;
      CataloguedKept(before, Build(paths, extract), info'.title, info'.season.GetOr(0), info'.episode.GetOr(0));
    }
  }

  // ---------------------------------------------------- stored paths

  /** `eps` holds an entry numbered `number` carrying `path`. */
  predicate HasEntry(eps: seq<Episode>, number: int, path: string) {
    exists k :: 0 <= k < |eps| && eps[k] == Episode(number, path)
  }

  predicate SeasonHasEntry(seasons: seq<Season>, season: int, episode: int, path: string) {
    exists j :: 0 <= j < |seasons| && seasons[j].number == season && HasEntry(seasons[j].episodes, episode, path)
  }

  /** The episode filed under `title` / `season` / `episode` carries `path`. */
  predicate Filed(media: seq<Show>, title: string, season: int, episode: int, path: string) {
    exists i :: 0 <= i < |media| && media[i].title == title && SeasonHasEntry(media[i].seasons, season, episode, path)
  }

  /** The key a file is filed under: its title, and its season and episode
      numbers with a missing one read as 0. */
  function KeyOf(info: ReleaseInfo): (string, int, int) {
    (info.title, info.season.GetOr(0), info.episode.GetOr(0))
  }

  function KeyAt(paths: seq<string>, extract: string -> Option<ReleaseInfo>, q: nat): (string, int, int)
    requires Extractable(paths, extract) && q < |paths|
  {
    KeyOf(extract(FileName(paths[q])).value)
  }

  lemma KeyAtPrefix(paths: seq<string>, extract: string -> Option<ReleaseInfo>, n: nat, q: nat)
    requires Extractable(paths, extract) && q < n <= |paths|
    ensures Extractable(paths[..n], extract) && KeyAt(paths[..n], extract, q) == KeyAt(paths, extract, q)
  {
    assert paths[..n][q] == paths[q];
  }

  /** `paths[p]` is the first path with its key. */
  predicate FirstWithKey(paths: seq<string>, extract: string -> Option<ReleaseInfo>, p: nat)
    requires Extractable(paths, extract)
  {
    p < |paths| && forall q :: 0 <= q < p ==> KeyAt(paths, extract, q) != KeyAt(paths, extract, p)
  }

  lemma AddEpisodeOnlyAdds(eps: seq<Episode>, number: int, path: string, e: int)
    requires HasEpisode(AddEpisode(eps, number, path), e)
    ensures HasEpisode(eps, e) || e == number
  {
    AddEpisodeFacts(eps, number, path);
    var r := AddEpisode(eps, number, path);
    var k :| 0 <= k < |r| && r[k].number == e;
    if k < |eps| {
      assert r[k] == eps[k];
    }
  }

  lemma AddToSeasonsOnlyAdds(seasons: seq<Season>, season: int, episode: int, path: string, s: int, e: int)
    requires SeasonHasEpisode(AddToSeasons(seasons, season, episode, path), s, e)
    ensures SeasonHasEpisode(seasons, s, e) || (s == season && e == episode)
  {
    var (ss, j) := FindOrCreateSeason(seasons, season);
    FindOrCreateSeasonFacts(seasons, season);
    var r := AddToSeasons(seasons, season, episode, path);
    var j' :| 0 <= j' < |r| && r[j'].number == s && HasEpisode(r[j'].episodes, e);
    if j' != j {
      assert j' < |seasons| && r[j'] == ss[j'] == seasons[j'];
    } else {
      AddEpisodeOnlyAdds(ss[j].episodes, episode, path, e);
      if HasEpisode(ss[j].episodes, e) && e != episode {
        assert j < |seasons| && ss[j] == seasons[j];
      }
    }
  }

  /** A file adds at most its own key to what is catalogued. */
  lemma AddFileOnlyAdds(media: seq<Show>, info: ReleaseInfo, path: string, t: string, s: int, e: int)
    requires Catalogued(AddFile(media, info, path), t, s, e)
    ensures Catalogued(media, t, s, e) || (t, s, e) == KeyOf(info)
  {
    var (shows, i) := FindOrCreateShow(media, info.title);
    FindOrCreateShowFacts(media, info.title);
    var r := AddFile(media, info, path);
    var i' :| 0 <= i' < |r| && r[i'].title == t && SeasonHasEpisode(r[i'].seasons, s, e);
    if i' != i {
      assert i' < |media| && r[i'] == shows[i'] == media[i'];
    } else {
      AddToSeasonsOnlyAdds(shows[i].seasons, info.season.GetOr(0), info.episode.GetOr(0), path, s, e);
      if SeasonHasEpisode(shows[i].seasons, s, e) && (t, s, e) != KeyOf(info) {
        assert i < |media| && shows[i] == media[i];
      }
    }
  }

  lemma AddToSeasonsNewEntry(seasons: seq<Season>, season: int, episode: int, path: string)
    requires !SeasonHasEpisode(seasons, season, episode)
    ensures SeasonHasEntry(AddToSeasons(seasons, season, episode, path), season, episode, path)
  {
    var r := AddToSeasons(seasons, season, episode, path);
    match SeasonPosition(seasons, season)
    case None =>
      var added := Season(season, [Episode(episode, path)]);
      assert AddEpisode([], episode, path) == added.episodes;
      assert (seasons + [Season(season, [])])[|seasons| := added] == seasons + [added];
      assert added.episodes[0] == Episode(episode, path);
      assert r[|seasons|] == added && HasEntry(added.episodes, episode, path);
    case Some(j) =>
      var eps := seasons[j].episodes;
      AddEpisodeFacts(eps, episode, path);
      assert r[j].episodes == eps + [Episode(episode, path)];
      assert r[j].episodes[|eps|] == Episode(episode, path);
  }

  /** A file whose key is not yet catalogued is stored with its own path. */
  lemma AddFileNewEntry(media: seq<Show>, info: ReleaseInfo, path: string)
    requires !Catalogued(media, info.title, info.season.GetOr(0), info.episode.GetOr(0))
    ensures Filed(AddFile(media, info, path), info.title, info.season.GetOr(0), info.episode.GetOr(0), path)
  {
    var (shows, i) := FindOrCreateShow(media, info.title);
    FindOrCreateShowFacts(media, info.title);
    if i < |media| {
      assert shows[i] == media[i];
    }
    AddToSeasonsNewEntry(shows[i].seasons, info.season.GetOr(0), info.episode.GetOr(0), path);
    var r := AddFile(media, info, path);
    assert r[i].title == info.title;
  }

  lemma FiledKept(a: seq<Show>, b: seq<Show>, title: string, season: int, episode: int, path: string)
    requires Extends(a, b) && Filed(a, title, season, episode, path)
    ensures Filed(b, title, season, episode, path)
  {
    var i :| 0 <= i < |a| && a[i].title == title && SeasonHasEntry(a[i].seasons, season, episode, path);
    var j :| 0 <= j < |a[i].seasons| && a[i].seasons[j].number == season && HasEntry(a[i].seasons[j].episodes, episode, path);
    var k :| 0 <= k < |a[i].seasons[j].episodes| && a[i].seasons[j].episodes[k] == Episode(episode, path);
    var eb := b[i].seasons[j].episodes;
    assert eb[k] == eb[..|a[i].seasons[j].episodes|][k];
    assert HasEntry(eb, episode, path);
    assert SeasonHasEntry(b[i].seasons, season, episode, path);
  }

  lemma EntryUnique(eps: seq<Episode>, episode: int, p1: string, p2: string)
    requires UniqueEpisodeNumbers(eps) && HasEntry(eps, episode, p1) && HasEntry(eps, episode, p2)
    ensures p1 == p2
  {
    var k1 :| 0 <= k1 < |eps| && eps[k1] == Episode(episode, p1);
    var k2 :| 0 <= k2 < |eps| && eps[k2] == Episode(episode, p2);
    assert k1 == k2;
  }

  lemma SeasonEntryUnique(ss: seq<Season>, season: int, episode: int, p1: string, p2: string)
    requires UniqueSeasons(ss) && SeasonHasEntry(ss, season, episode, p1) && SeasonHasEntry(ss, season, episode, p2)
    ensures p1 == p2
  {
    var j1 :| 0 <= j1 < |ss| && ss[j1].number == season && HasEntry(ss[j1].episodes, episode, p1);
    var j2 :| 0 <= j2 < |ss| && ss[j2].number == season && HasEntry(ss[j2].episodes, episode, p2);
    assert j1 == j2;
    EntryUnique(ss[j1].episodes, episode, p1, p2);
  }

  /** In a well-formed catalogue a key carries one path only. */
  lemma FiledUnique(media: seq<Show>, title: string, season: int, episode: int, p1: string, p2: string)
    requires WellFormed(media)
    requires Filed(media, title, season, episode, p1) && Filed(media, title, season, episode, p2)
    ensures p1 == p2
  {
    var i1 :| 0 <= i1 < |media| && media[i1].title == title && SeasonHasEntry(media[i1].seasons, season, episode, p1);
    var i2 :| 0 <= i2 < |media| && media[i2].title == title && SeasonHasEntry(media[i2].seasons, season, episode, p2);
    assert i1 == i2;
    SeasonEntryUnique(media[i1].seasons, season, episode, p1, p2);
  }

  /** Everything catalogued after the loop is the key of some file. */
  lemma {:induction false} BuildOnlyFiles(paths: seq<string>, extract: string -> Option<ReleaseInfo>, t: string, s: int, e: int)
    requires Extractable(paths, extract)
    requires Catalogued(Build(paths, extract), t, s, e)
    ensures exists q :: 0 <= q < |paths| && KeyAt(paths, extract, q) == (t, s, e)
  {
    var n := |paths| - 1;
    var before := Build(paths[..n], extract);
    var info := extract(FileName(paths[n])).value;
    assert Build(paths, extract) == AddFile(before, info, paths[n]);
    AddFileOnlyAdds(before, info, paths[n], t, s, e);
    if (t, s, e) == KeyOf(info) {
      assert KeyAt(paths, extract, n) == (t, s, e);
    } else {
      BuildOnlyFiles(paths[..n], extract, t, s, e);
      var q :| 0 <= q < n && KeyAt(paths[..n], extract, q) == (t, s, e);
      assert paths[..n][q] == paths[q];
      assert KeyAt(paths, extract, q) == (t, s, e);
    }
  }

  /** After the loop, the episode under a file's key carries the first
      path with that key, and no other: later duplicates are dropped. */
  lemma BuildKeepsFirstPath(paths: seq<string>, extract: string -> Option<ReleaseInfo>, p: nat)
    requires Extractable(paths, extract) && FirstWithKey(paths, extract, p)
    ensures var key := KeyAt(paths, extract, p);
      && Filed(Build(paths, extract), key.0, key.1, key.2, paths[p])
      && forall path :: Filed(Build(paths, extract), key.0, key.1, key.2, path) ==> path == paths[p]
  {
    var key := KeyAt(paths, extract, p);
    BuildFirstPathFiled(paths, extract, p);
    BuildWellFormed(paths, extract);
    forall path | Filed(Build(paths, extract), key.0, key.1, key.2, path) ensures path == paths[p] {
      FiledUnique(Build(paths, extract), key.0, key.1, key.2, path, paths[p]);
    }
  }

  lemma {:induction false} BuildFirstPathFiled(paths: seq<string>, extract: string -> Option<ReleaseInfo>, p: nat)
    requires Extractable(paths, extract) && FirstWithKey(paths, extract, p)
    ensures var key := KeyAt(paths, extract, p);
      Filed(Build(paths, extract), key.0, key.1, key.2, paths[p])
    decreases |paths|, 1
  {
    if p == |paths| - 1 {
      BuildLastPathFiled(paths, extract);
    } else {
      BuildEarlierPathFiled(paths, extract, p);
    }
  }

  /** The last path, when no earlier path shares its key, is stored. */
  lemma BuildLastPathFiled(paths: seq<string>, extract: string -> Option<ReleaseInfo>)
    requires Extractable(paths, extract) && |paths| > 0 && FirstWithKey(paths, extract, |paths| - 1)
    ensures var key := KeyAt(paths, extract, |paths| - 1);
      Filed(Build(paths, extract), key.0, key.1, key.2, paths[|paths| - 1])
  {
    var n := |paths| - 1;
    var before := Build(paths[..n], extract);
    var info := extract(FileName(paths[n])).value;
    var key := KeyAt(paths, extract, n);
    if Catalogued(before, key.0, key.1, key.2) {
      BuildOnlyFiles(paths[..n], extract, key.0, key.1, key.2);
      var q :| 0 <= q < n && KeyAt(paths[..n], extract, q) == key;
      KeyAtPrefix(paths, extract, n, q);
      assert false;
    }
    AddFileNewEntry(before, info, paths[n]);
  }

  /** A stored path stays stored when a later file is added. */
  lemma {:induction false} BuildEarlierPathFiled(paths: seq<string>, extract: string -> Option<ReleaseInfo>, p: nat)
    requires Extractable(paths, extract) && FirstWithKey(paths, extract, p) && p < |paths| - 1
    ensures var key := KeyAt(paths, extract, p);
      Filed(Build(paths, extract), key.0, key.1, key.2, paths[p])
    decreases |paths|, 0
  {
    var n := |paths| - 1;
    var before := Build(paths[..n], extract);
    var info := extract(FileName(paths[n])).value;
    var key := KeyAt(paths, extract, p);
    assert paths[..n][p] == paths[p];
    KeyAtPrefix(paths, extract, n, p);
    forall q | 0 <= q < p ensures KeyAt(paths[..n], extract, q) != KeyAt(paths[..n], extract, p) {
      KeyAtPrefix(paths, extract, n, q);
    }
    BuildFirstPathFiled(paths[..n], extract, p);
    AddFileExtends(before, info, paths[n]);
    FiledKept(before, AddFile(before, info, paths[n]), key.0, key.1, key.2, paths[p]);
    assert Build(paths, extract) == AddFile(before, info, paths[n]);
  }

  /** Shows are listed in the order their titles are first met. */
  lemma {:induction false} BuildTitles(paths: seq<string>, extract: string -> Option<ReleaseInfo>)
    requires Extractable(paths, extract)
    ensures Titles(Build(paths, extract)) == FirstOccurrences(TitlesOf(paths, extract))
  {
    if |paths| > 0 {
      var n := |paths| - 1;
      var before := Build(paths[..n], extract);
      var info := extract(FileName(paths[n])).value;
      assert Build(paths, extract) == AddFile(before, info, paths[n]);
      BuildTitles(paths[..n], extract);
      var titles := TitlesOf(paths, extract);
      assert titles[..n] == TitlesOf(paths[..n], extract);
      TitlesStep(before, info, paths[n], titles);
    }
  }

  lemma TitlesStep(before: seq<Show>, info: ReleaseInfo, path: string, titles: seq<string>)
    requires |titles| > 0 && titles[|titles| - 1] == info.title
    requires Titles(before) == FirstOccurrences(titles[..|titles| - 1])
    ensures Titles(AddFile(before, info, path)) == FirstOccurrences(titles)
  {
    AddFileTitles(before, info, path);
  }

  // ------------------------------------------------- the mutable config

  /** `BaseConfig`: the catalogue that `build_config` grows in place. */
  class BaseConfig {
    var media: seq<Show>

    constructor ()
      ensures media == []
    {
      media := [];
    }

    /** The body of the loop in `build_config`, on an already extracted
        file name: find-or-create the show, then the season, then add the
        episode unless its number is taken. */
    method AddPath(path: string, info: ReleaseInfo)
      modifies this
      ensures media == AddFile(old(media), info, path)
    {
      var showIndex: nat;
      match ShowPosition(media, info.title) {
        case Some(i) =>
          showIndex := i;
        case None =>
          media := media + [Show(info.title, [])];
          showIndex := |media| - 1;
      }
      var show := media[showIndex];

      var seasonNumber := info.season.GetOr(0);
      var seasons := show.seasons;
      var seasonIndex: nat;
      match SeasonPosition(seasons, seasonNumber) {
        case Some(j) =>
          seasonIndex := j;
        case None =>
          seasons := seasons + [Season(seasonNumber, [])];
          seasonIndex := |seasons| - 1;
      }
      var season := seasons[seasonIndex];

      var episodeNumber := info.episode.GetOr(0);
      if EpisodePosition(season.episodes, episodeNumber).None? {
        season := season.(episodes := season.episodes + [Episode(episodeNumber, path)]);
      }

      seasons := seasons[seasonIndex := season];
      media := media[showIndex := show.(seasons := seasons)];
    }
  }

  /** `build_config` without the directory walk: the paths are given, and
      `extract` stands for the release-name extractor. */
  method BuildConfig(paths: seq<string>, extract: string -> Option<ReleaseInfo>) returns (config: BaseConfig)
    requires Extractable(paths, extract)
    ensures fresh(config)
    ensures config.media == Build(paths, extract)
    ensures WellFormed(config.media)
    ensures forall p :: 0 <= p < |paths| ==>
      var info := extract(FileName(paths[p])).value;
      Catalogued(config.media, info.title, info.season.GetOr(0), info.episode.GetOr(0))
  {
    config := new BaseConfig();
    for i := 0 to |paths|
      invariant config.media == Build(paths[..i], extract)
    {
      var path := paths[i];
      var info := extract(FileName(path)).value;
      config.AddPath(path, info);
      assert paths[..i + 1][..i] == paths[..i];
    }
    assert paths[..|paths|] == paths;
    BuildWellFormed(paths, extract);
    forall p | 0 <= p < |paths|
      ensures var info := extract(FileName(paths[p])).value;
        Catalogued(config.media, info.title, info.season.GetOr(0), info.episode.GetOr(0))
    {
      BuildFiles(paths, extract, p);
    }
  }
}
