/**
 * The detail-page side of the 1337x spider (`T1337x::getTopic`): how a topic
 * found on a listing page becomes a stored torrent record, or is abandoned.
 *
 * The decision sequence is: find the media id (from the description, else
 * from the title), extract the magnet link, read the file tree and the
 * language, route episodes (an `SxxEyy` tag in the title) to an episode
 * torrent and everything else to a movie torrent, and store the record.
 * The DOM is abstracted into the pieces the spider reads; the helpers of the
 * base spider and the torrent and episode services are function parameters.
 */
module TopicDetail {
  import opened Wrappers
  import opened Text
  import opened FileTree
  import opened TitleLookup
  import opened Listing

  /** One `ul.list li` of the detail page: its markup and the text of its first `span`, if any. */
  datatype ListItem = ListItem(html: string, span: Option<string>)

  /** The parts of a detail page `getTopic` reads. */
  datatype DetailPage = DetailPage(
    title: string,            // text of `.box-info-heading h1`
    description: string,      // the `#description` block
    torrentTable: string,     // markup of `.torrent-detail-page`
    files: seq<Group>,        // the file tree under `#files`
    items: seq<ListItem>)     // the attribute list `ul.list li`

  /**
   * The collaborators `getTopic` calls. Torrents, shows and episodes are
   * represented by opaque integer handles.
   */
  datatype Services = Services(
    imdbOf: string -> Option<string>,               // getImdb on the description
    searchShow: string -> Option<string>,           // TorrentService search for a show name
    searchMovie: (string, string) -> Option<string>, // TorrentService search for a movie name and year
    qualityOf: string -> string,                    // getQuality on the description
    showOf: string -> Option<int>,                  // getMediaByImdb, when the media is a Show
    episodeOf: (int, nat, nat) -> Option<int>,      // EpisodeService::getEpisode(show, season, episode)
    episodeTorrent: (string, int) -> Option<int>,   // findExistOrCreateTorrent for a new EpisodeTorrent
    movieTorrent: (string, string) -> Option<int>,  // getTorrentByImdb(topic id, imdb)
    isoOf: string -> string)                        // langName2IsoCode

  /** The fields `getTopic` sets on the torrent before `updateTorrent`. */
  datatype TorrentRecord = TorrentRecord(
    torrent: int,
    providerTitle: string,
    url: string,
    seed: int,
    peer: int,
    quality: string,
    language: string,
    files: seq<FileEntry>)

  /** Why a topic is given up without storing anything. */
  datatype Reason = NoImdb | NoMagnet | NotAShow | NoEpisode | NoTorrent

  /**
   * How `getTopic` ends: it returns early, it stops with a PHP error (the
   * attribute list has no usable `Language` entry), or it stores a record.
   */
  datatype Outcome = Abandoned(reason: Reason) | Crashed | Stored(record: TorrentRecord)

  /** Where the torrent lookup leads: a torrent handle, or the reason there is none. */
  datatype Lookup = Found(torrent: int) | Missed(reason: Reason)

  /** The stem of the magnet capture `"(magnet[^"]+)"`. */
  const MagnetStem: string := "magnet"
  /** The label of the language entry in the attribute list. */
  const LanguageLabel: string := "Language"

  // ---------------------------------------------------------------------------
  // The steps

  /** PHP's `!$imdb` on a nullable string: null, "" and "0" are all false. */
  predicate Falsy(id: Option<string>) {
    id.None? || id.value == "" || id.value == "0"
  }

  /** The media id: the description's own, else the guess from the title, else none. */
  function ResolveImdb(page: DetailPage, env: Services): (r: Option<string>)
    ensures r.Some? ==> !Falsy(r)
  {
    var own := env.imdbOf(page.description);
    if !Falsy(own) then own
    else
      var guess := ImdbByTitle(page.title, env.searchShow, env.searchMovie);
      if Falsy(guess) then None else guess
  }

  /** `preg_match('#"(magnet[^"]+)"#', ...)`: the first double-quoted literal that begins with `magnet`. */
  function Magnet(html: string): Option<string> {
    CaptureQuoted(html, "\"", MagnetStem)
  }

  /** The first item `p` holds for: `current(array_filter(...))`. */
  function FirstWith(p: ListItem -> bool, items: seq<ListItem>): Option<ListItem> {
    if items == [] then None
    else if p(items[0]) then Some(items[0])
    else FirstWith(p, items[1..])
  }

  /** Item `i` is the first one `p` holds for. */
  predicate FirstAt(p: ListItem -> bool, items: seq<ListItem>, i: nat) {
    i < |items| && p(items[i]) && forall j :: 0 <= j < i ==> !p(items[j])
  }

  /** An attribute-list entry whose markup mentions `Language` (`strpos`). */
  predicate MentionsLanguage(item: ListItem) {
    Contains(item.html, LanguageLabel)
  }

  /** The first attribute-list entry whose markup mentions `Language`. */
  function LanguageItem(items: seq<ListItem>): Option<ListItem> {
    FirstWith(MentionsLanguage, items)
  }

  /** The language text, or None when reading it fails (no such entry, or no `span` in it). */
  function Language(items: seq<ListItem>): Option<string> {
    match LanguageItem(items)
    case None => None
    case Some(item) => item.span
  }

  /** `preg_match('#S(\d\d)E(\d\d)#', $title, $m)` on the raw title: season and episode of the leftmost tag. */
  function EpisodeOf(title: string): Option<(nat, nat)> {
    match FindFirst(EpisodeTagAt, title, 0)
    case None => None
    case Some(p) =>
      FindFirstSpec(EpisodeTagAt, title, 0);
      Some((DecimalValue(title[p + 1..p + 3]), DecimalValue(title[p + 4..p + 6])))
  }

  /**
   * The torrent the record goes to: for a title with an episode tag, the
   * episode torrent of that show's episode; otherwise the movie torrent.
   */
  function LocateTorrent(topicId: string, title: string, imdb: string, env: Services): Lookup {
    match EpisodeOf(title)
    case Some(numbers) =>
      (match env.showOf(imdb)
       case None => Missed(NotAShow)
       case Some(show) =>
         match env.episodeOf(show, numbers.0, numbers.1)
         case None => Missed(NoEpisode)
         case Some(episode) =>
           match env.episodeTorrent(topicId, episode)
           case None => Missed(NoTorrent)
           case Some(t) => Found(t))
    case None =>
      match env.movieTorrent(topicId, imdb)
      case None => Missed(NoTorrent)
      case Some(t) => Found(t)
  }

  /** `getTopic` on a fetched detail page. */
  function GetTopic(topic: TopicDto, page: DetailPage, env: Services): Outcome {
    match ResolveImdb(page, env)
    case None => Abandoned(NoImdb)
    case Some(imdb) =>
      match Magnet(page.torrentTable)
      case None => Abandoned(NoMagnet)
      case Some(url) =>
        match Language(page.items)
        case None => Crashed
        case Some(lang) =>
          match LocateTorrent(topic.id, page.title, imdb, env)
          case Missed(reason) => Abandoned(reason)
          case Found(t) =>
            Stored(TorrentRecord(t, page.title, url, topic.seed, topic.seed + topic.leech,
                                 env.qualityOf(page.description), env.isoOf(lang), FlattenAll(page.files)))
  }

  // ---------------------------------------------------------------------------
  // Properties of the steps

  /**
   * The description's own id wins when it is truthy; otherwise the title's
   * guess is used when truthy; and nothing is found when the title gives
   * nothing to search for.
   */
  lemma ResolveImdbSpec(page: DetailPage, env: Services)
    ensures !Falsy(env.imdbOf(page.description)) ==> ResolveImdb(page, env) == env.imdbOf(page.description)
    ensures Falsy(env.imdbOf(page.description)) ==>
              (ResolveImdb(page, env).Some? <==> !Falsy(ImdbByTitle(page.title, env.searchShow, env.searchMovie)))
    ensures Falsy(env.imdbOf(page.description)) && ResolveImdb(page, env).Some? ==>
              ResolveImdb(page, env) == ImdbByTitle(page.title, env.searchShow, env.searchMovie)
    ensures Falsy(env.imdbOf(page.description)) && Classify(page.title) == NoSearch ==> ResolveImdb(page, env).None?
  {
  }

  /**
   * A magnet link is found exactly when a `"magnet…"` literal with at least
   * one character after `magnet` occurs; it begins with `magnet`, is longer
   * than it, holds no quote, and is the leftmost such literal.
   */
  lemma MagnetSpec(html: string)
    ensures Magnet(html).Some? <==> exists i :: 0 <= i < |html| && QuotedAt(html, i, "\"", MagnetStem).Some?
    ensures Magnet(html).Some? ==>
              var url := Magnet(html).value;
              && MagnetStem <= url && |url| > |MagnetStem|
              && (forall k :: 0 <= k < |url| ==> url[k] != '"')
              && exists i :: 0 <= i < |html| && QuotedMatch(html, i, "\"", MagnetStem, url)
                             && forall j :: 0 <= j < i ==> QuotedAt(html, j, "\"", MagnetStem).None?
  {
    CaptureQuotedSpec(html, "\"", MagnetStem);
    if Magnet(html).Some? {
      var url := Magnet(html).value;
      var i :| 0 <= i < |html| && QuotedMatch(html, i, "\"", MagnetStem, url);
      forall k | 0 <= k < |url| ensures url[k] != '"' {
        if k < |MagnetStem| {
          assert url[k] == MagnetStem[k];
        }
      }
    }
  }

  /**
   * The filter keeps the first item `p` holds for; there is none exactly when
   * `p` holds for no item.
   */
  lemma {:induction false} FirstWithSpec(p: ListItem -> bool, items: seq<ListItem>)
    ensures FirstWith(p, items).None? <==> forall i :: 0 <= i < |items| ==> !p(items[i])
    ensures FirstWith(p, items).Some? ==> exists i: nat :: FirstAt(p, items, i) && items[i] == FirstWith(p, items).value
  {
    if items != [] && !p(items[0]) {
      FirstWithSpec(p, items[1..]);
      if FirstWith(p, items).Some? {
        var i: nat :| FirstAt(p, items[1..], i) && items[1..][i] == FirstWith(p, items[1..]).value;
        assert items[i + 1] == items[1..][i];
        forall j | 0 <= j < i + 1 ensures !p(items[j]) {
          if j > 0 {
            assert items[j] == items[1..][j - 1];
          }
        }
        assert FirstAt(p, items, i + 1);
      } else {
        forall i | 0 <= i < |items| ensures !p(items[i]) {
          if i > 0 {
            assert items[i] == items[1..][i - 1];
          }
        }
      }
    } else if items != [] {
      assert FirstAt(p, items, 0);
    }
  }

  /**
   * An episode tag is found exactly when `S\d\dE\d\d` occurs in the title;
   * season and episode are then the two-digit numbers of the leftmost tag,
   * each below 100.
   */
  lemma EpisodeOfSpec(title: string)
    ensures EpisodeOf(title).Some? <==> exists i :: 0 <= i < |title| && EpisodeTagAt(title, i)
    ensures EpisodeOf(title).Some? ==>
              exists p :: 0 <= p < |title| && EpisodeTagAt(title, p)
                          && (forall j :: 0 <= j < p ==> !EpisodeTagAt(title, j))
                          && EpisodeOf(title).value.0 == 10 * DigitValue(title[p + 1]) + DigitValue(title[p + 2])
                          && EpisodeOf(title).value.1 == 10 * DigitValue(title[p + 4]) + DigitValue(title[p + 5])
    ensures EpisodeOf(title).Some? ==> EpisodeOf(title).value.0 < 100 && EpisodeOf(title).value.1 < 100
  {
    FindFirstSpec(EpisodeTagAt, title, 0);
    if EpisodeOf(title).Some? {
      var p := FindFirst(EpisodeTagAt, title, 0).value;
      TwoDigits(title[p + 1..p + 3]);
      TwoDigits(title[p + 4..p + 6]);
    }
  }

  /** Two digits read as a number: ten times the first plus the second. */
  lemma TwoDigits(ds: string)
    requires |ds| == 2 && AllDigits(ds)
    ensures DecimalValue(ds) == 10 * DigitValue(ds[0]) + DigitValue(ds[1])
  {
    assert ds[..1][..0] == [];
  }

  // ---------------------------------------------------------------------------
  // Properties of the decision sequence

  /**
   * A stored record carries the page title, the leftmost magnet literal, the
   * listing's seed count, `peer = seed + leech` (so never below the seed count
   * when leech is not negative), the description's quality, the ISO code of
   * the language entry and the flattened file tree.
   */
  lemma StoredRecordSpec(topic: TopicDto, page: DetailPage, env: Services)
    requires GetTopic(topic, page, env).Stored?
    ensures var r := GetTopic(topic, page, env).record;
            && r.providerTitle == page.title
            && Magnet(page.torrentTable) == Some(r.url) && MagnetStem <= r.url
            && r.seed == topic.seed && r.peer == topic.seed + topic.leech
            && (topic.leech >= 0 ==> r.peer >= r.seed)
            && r.quality == env.qualityOf(page.description)
            && Language(page.items).Some? && r.language == env.isoOf(Language(page.items).value)
            && r.files == FlattenAll(page.files)
    ensures ResolveImdb(page, env).Some?
  {
    MagnetSpec(page.torrentTable);
  }

  /**
   * A page without a magnet literal is abandoned: nothing is stored and the
   * language entry is never read.
   */
  lemma NoMagnetNoStore(topic: TopicDto, page: DetailPage, env: Services)
    requires forall i :: 0 <= i < |page.torrentTable| ==> QuotedAt(page.torrentTable, i, "\"", MagnetStem).None?
    ensures GetTopic(topic, page, env).Abandoned?
    ensures ResolveImdb(page, env).Some? ==> GetTopic(topic, page, env) == Abandoned(NoMagnet)
  {
    MagnetSpec(page.torrentTable);
  }

  /** A page whose description has no id and whose title gives nothing to search for is abandoned first. */
  lemma NoIdentityNoStore(topic: TopicDto, page: DetailPage, env: Services)
    requires Falsy(env.imdbOf(page.description)) && Classify(page.title) == NoSearch
    ensures GetTopic(topic, page, env) == Abandoned(NoImdb)
  {
    ResolveImdbSpec(page, env);
  }

  /**
   * The run stops with an error exactly when an id and a magnet are found but
   * no attribute entry mentions `Language`, or the first one that does has no
   * `span`.
   */
  lemma CrashSpec(topic: TopicDto, page: DetailPage, env: Services)
    ensures GetTopic(topic, page, env) == Crashed <==>
              && ResolveImdb(page, env).Some? && Magnet(page.torrentTable).Some?
              && ((forall i :: 0 <= i < |page.items| ==> !MentionsLanguage(page.items[i]))
                  || exists i: nat :: FirstAt(MentionsLanguage, page.items, i) && page.items[i].span.None?)
  {
    FirstWithSpec(MentionsLanguage, page.items);
  }

  /**
   * Episodes and movies are routed apart: a title with an episode tag is
   * stored on the torrent of the tagged episode of the media's show; a title
   * without one goes to the movie torrent of the topic and id.
   */
  lemma EpisodeRouting(topic: TopicDto, page: DetailPage, env: Services)
    ensures EpisodeOf(page.title).Some? && GetTopic(topic, page, env).Stored? ==>
              var imdb := ResolveImdb(page, env).value;
              var (season, episode) := EpisodeOf(page.title).value;
              && env.showOf(imdb).Some?
              && env.episodeOf(env.showOf(imdb).value, season, episode).Some?
              && Some(GetTopic(topic, page, env).record.torrent)
                 == env.episodeTorrent(topic.id, env.episodeOf(env.showOf(imdb).value, season, episode).value)
    ensures EpisodeOf(page.title).None? && GetTopic(topic, page, env).Stored? ==>
              Some(GetTopic(topic, page, env).record.torrent) == env.movieTorrent(topic.id, ResolveImdb(page, env).value)
  {
  }

  /**
   * The lookups of the other route play no part in the outcome: the movie
   * lookup for a title with an episode tag, the show, episode and episode
   * torrent lookups for one without.
   */
  lemma RoutesIndependent(topic: TopicDto, page: DetailPage, env: Services,
                          movie: (string, string) -> Option<int>, show: string -> Option<int>,
                          episodes: (int, nat, nat) -> Option<int>, episodeTorrent: (string, int) -> Option<int>)
    ensures EpisodeOf(page.title).Some? ==> GetTopic(topic, page, env.(movieTorrent := movie)) == GetTopic(topic, page, env)
    ensures EpisodeOf(page.title).None? ==>
              GetTopic(topic, page, env.(showOf := show, episodeOf := episodes, episodeTorrent := episodeTorrent))
              == GetTopic(topic, page, env)
  {
    var movieEnv := env.(movieTorrent := movie);
    var episodeEnv := env.(showOf := show, episodeOf := episodes, episodeTorrent := episodeTorrent);
    assert ResolveImdb(page, movieEnv) == ResolveImdb(page, env);
    assert ResolveImdb(page, episodeEnv) == ResolveImdb(page, env);
  }

  /**
   * With an id of its own in the description, the title searches play no part
   * in the outcome.
   */
  lemma OwnIdSkipsSearch(topic: TopicDto, page: DetailPage, env: Services,
                         show: string -> Option<string>, movie: (string, string) -> Option<string>)
    requires !Falsy(env.imdbOf(page.description))
    ensures GetTopic(topic, page, env.(searchShow := show, searchMovie := movie)) == GetTopic(topic, page, env)
  {
    var env' := env.(searchShow := show, searchMovie := movie);
    assert ResolveImdb(page, env') == ResolveImdb(page, env);
    assert forall t, id, im :: LocateTorrent(t, id, im, env') == LocateTorrent(t, id, im, env);
  }

  /**
   * Stored is reached exactly when every step succeeds: an id, a magnet, a
   * readable language entry and a torrent.
   */
  lemma StoredIff(topic: TopicDto, page: DetailPage, env: Services)
    ensures GetTopic(topic, page, env).Stored? <==>
              && ResolveImdb(page, env).Some?
              && (exists i :: 0 <= i < |page.torrentTable| && QuotedAt(page.torrentTable, i, "\"", MagnetStem).Some?)
              && (exists i: nat :: FirstAt(MentionsLanguage, page.items, i) && page.items[i].span.Some?)
              && LocateTorrent(topic.id, page.title, ResolveImdb(page, env).value, env).Found?
  {
    MagnetSpec(page.torrentTable);
    FirstWithSpec(MentionsLanguage, page.items);
  }

  // ---------------------------------------------------------------------------
  // Examples

  /** A quoted magnet literal at the very start is captured without its quotes. */
  lemma MagnetExample()
    ensures Magnet("\"magnet:?xt\"") == Some("magnet:?xt")
  {
    var s := "\"magnet:?xt\"";
    assert QuotedMatch(s, 0, "\"", MagnetStem, "magnet:?xt") by {
      assert s[0..12] == "\"" + "magnet:?xt" + "\"";
    }
    QuotedAtComplete(s, 0, "\"", MagnetStem, "magnet:?xt");
    assert QuotedProbe("\"", MagnetStem)(s, 0);
  }

  /** `S02E05` reads as season 2, episode 5. */
  lemma EpisodeExample()
    ensures EpisodeOf("Show.S02E05.720p") == Some((2, 5))
  {
    var t := "Show.S02E05.720p";
    assert EpisodeTagAt(t, 5);
    forall j | 0 <= j < 5 ensures !EpisodeTagAt(t, j) {
    }
    FindFirstIs(EpisodeTagAt, t, 0, 5);
    assert t[6..8] == "02" && t[9..11] == "05";
    TwoDigits("02");
    TwoDigits("05");
  }
}
