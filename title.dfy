/**
 * `getImdbByTitle`: when a detail page carries no IMDb id, the spider guesses
 * the media from the topic title. Dots become spaces; the title counts as a
 * serial when it mentions `Season`, carries an `SxxEyy` tag or has no `(yyyy)`
 * year; a serial is searched by the text before its season marker; otherwise
 * (or when a serial has no such marker) a movie is searched by name and year.
 * The two searches are collaborators and are passed in as functions.
 */
module TitleLookup {
  import opened Wrappers
  import opened Text

  /** What the title leads the spider to search for. */
  datatype Search = ShowSearch(name: string) | MovieSearch(name: string, year: string) | NoSearch

  /** `str_replace('.', ' ', $titleStr)`. */
  function DotsToSpaces(s: string): string {
    seq(|s|, i requires 0 <= i < |s| => if s[i] == '.' then ' ' else s[i])
  }

  /** The replacement keeps the length, leaves no dot and changes nothing but dots; doing it twice changes nothing more. */
  lemma DotsToSpacesSpec(s: string)
    ensures |DotsToSpaces(s)| == |s|
    ensures forall i :: 0 <= i < |s| ==> DotsToSpaces(s)[i] != '.'
    ensures forall i :: 0 <= i < |s| && s[i] != '.' ==> DotsToSpaces(s)[i] == s[i]
    ensures forall i :: 0 <= i < |s| && s[i] == '.' ==> DotsToSpaces(s)[i] == ' '
    ensures DotsToSpaces(DotsToSpaces(s)) == DotsToSpaces(s)
  {
  }

  // ---------------------------------------------------------------------------
  // The fixed shapes the regular expressions look for, by start index

  /** ASCII lower case: the folding `mb_stripos` applies to the letters of `Season`. */
  function LowerAscii(c: char): char {
    if 'A' <= c <= 'Z' then (c as int + 32) as char else c
  }

  /** `Season` in any letter case starts at `i`. */
  predicate SeasonWordAt(t: string, i: nat) {
    i + 6 <= |t| && forall k :: 0 <= k < 6 ==> LowerAscii(t[i + k]) == "season"[k]
  }

  /** `S\d\dE\d\d` starts at `i`. */
  predicate EpisodeTagAt(t: string, i: nat) {
    i + 6 <= |t| && t[i] == 'S' && IsDigit(t[i + 1]) && IsDigit(t[i + 2])
    && t[i + 3] == 'E' && IsDigit(t[i + 4]) && IsDigit(t[i + 5])
  }

  /** `\(\d{4}\)` starts at `i`: a year in parentheses. */
  predicate ParenYearAt(t: string, i: nat) {
    i + 6 <= |t| && t[i] == '(' && AllDigits(t[i + 1..i + 5]) && t[i + 5] == ')'
  }

  /** `S\d\d|Season \d` starts at `i`: the season marker that ends a show name. */
  predicate SeasonMarkerAt(t: string, i: nat) {
    (i + 3 <= |t| && t[i] == 'S' && IsDigit(t[i + 1]) && IsDigit(t[i + 2]))
    || (StartsAt(t, i, "Season ") && i + 8 <= |t| && IsDigit(t[i + 7]))
  }

  /** `\(\d{4}` starts at `i`: an opening parenthesis and four digits. */
  predicate OpenYearAt(t: string, i: nat) {
    i + 5 <= |t| && t[i] == '(' && AllDigits(t[i + 1..i + 5])
  }

  /** ` \d{4}` starts at `i`: a space and four digits. */
  predicate SpacedYearAt(t: string, i: nat) {
    i + 5 <= |t| && t[i] == ' ' && AllDigits(t[i + 1..i + 5])
  }

  // ---------------------------------------------------------------------------
  // The classifier

  /**
   * The serial test on the dot-free title: `Season` in any case, an `SxxEyy`
   * tag, or no `(yyyy)` year at all.
   */
  predicate IsSerial(t: string) {
    FindFirst(SeasonWordAt, t, 0).Some?
    || FindFirst(EpisodeTagAt, t, 0).Some?
    || FindFirst(ParenYearAt, t, 0).None?
  }

  /**
   * `preg_match('#(.*?)(S\d\d|Season \d)#', ...)`: the lazy group stops at the
   * leftmost season marker; the show name is that prefix, trimmed.
   */
  function ShowName(t: string): Option<string> {
    match FindFirst(SeasonMarkerAt, t, 0)
    case None => None
    case Some(p) => Some(Trim(t[..p]))
  }

  /**
   * The movie patterns: the greedy `^(.*)\((\d{4})` settles on the rightmost
   * `(yyyy`; failing that, the lazy `^(.*?) (\d{4})` on the leftmost ` yyyy`.
   * The name is the text before it, trimmed; the year the four digits.
   */
  function MovieKey(t: string): Option<(string, string)> {
    match FindLast(OpenYearAt, t, |t|)
    case Some(p) =>
      FindLastSpec(OpenYearAt, t, |t|);
      Some((Trim(t[..p]), t[p + 1..p + 5]))
    case None =>
      match FindFirst(SpacedYearAt, t, 0)
      case Some(p) =>
        FindFirstSpec(SpacedYearAt, t, 0);
        Some((Trim(t[..p]), t[p + 1..p + 5]))
      case None => None
  }

  /** The search `getImdbByTitle` makes for a raw topic title. */
  function Classify(title: string): Search {
    var t := DotsToSpaces(title);
    if IsSerial(t) && ShowName(t).Some? then ShowSearch(ShowName(t).value)
    else match MovieKey(t)
      case Some(key) => MovieSearch(key.0, key.1)
      case None => NoSearch
  }

  /**
   * `getImdbByTitle` with the two `TorrentService` searches as parameters, on
   * the dot-free title `t`: a serial with a season marker is searched as the
   * show named by the trimmed text before the leftmost marker; otherwise the
   * movie named by the text before the rightmost `(yyyy`, with that year, or
   * failing that before the leftmost ` yyyy`; with none of these, nothing is
   * searched and no id is returned.
   */
  function ImdbByTitle(title: string, searchShow: string -> Option<string>,
                       searchMovie: (string, string) -> Option<string>): (r: Option<string>)
    ensures var t := DotsToSpaces(title);
            IsSerial(t) && (exists i :: 0 <= i < |t| && SeasonMarkerAt(t, i)) ==>
              exists p :: 0 <= p < |t| && SeasonMarkerAt(t, p)
                          && (forall j :: 0 <= j < p ==> !SeasonMarkerAt(t, j))
                          && r == searchShow(Trim(t[..p]))
    ensures var t := DotsToSpaces(title);
            !(IsSerial(t) && exists i :: 0 <= i < |t| && SeasonMarkerAt(t, i))
            && (exists i :: 0 <= i < |t| && OpenYearAt(t, i)) ==>
              exists p :: 0 <= p < |t| && OpenYearAt(t, p)
                          && (forall j :: p < j < |t| ==> !OpenYearAt(t, j))
                          && r == searchMovie(Trim(t[..p]), t[p + 1..p + 5])
    ensures var t := DotsToSpaces(title);
            !(IsSerial(t) && exists i :: 0 <= i < |t| && SeasonMarkerAt(t, i))
            && (forall i :: 0 <= i < |t| ==> !OpenYearAt(t, i))
            && (exists i :: 0 <= i < |t| && SpacedYearAt(t, i)) ==>
              exists p :: 0 <= p < |t| && SpacedYearAt(t, p)
                          && (forall j :: 0 <= j < p ==> !SpacedYearAt(t, j))
                          && r == searchMovie(Trim(t[..p]), t[p + 1..p + 5])
    ensures var t := DotsToSpaces(title);
            !(IsSerial(t) && exists i :: 0 <= i < |t| && SeasonMarkerAt(t, i))
            && (forall i :: 0 <= i < |t| ==> !OpenYearAt(t, i))
            && (forall i :: 0 <= i < |t| ==> !SpacedYearAt(t, i)) ==>
              r == None
  {
    ShowNameSpec(DotsToSpaces(title));
    MovieKeySpec(DotsToSpaces(title));
    match Classify(title)
    case ShowSearch(name) => searchShow(name)
    case MovieSearch(name, year) => searchMovie(name, year)
    case NoSearch => None
  }

  // ---------------------------------------------------------------------------
  // Properties

  /**
   * A show name exists exactly when a season marker occurs; it is the trimmed
   * text before the leftmost one.
   */
  lemma ShowNameSpec(t: string)
    ensures ShowName(t).Some? <==> exists i :: 0 <= i < |t| && SeasonMarkerAt(t, i)
    ensures ShowName(t).Some? ==>
              exists p :: 0 <= p < |t| && SeasonMarkerAt(t, p)
                          && (forall j :: 0 <= j < p ==> !SeasonMarkerAt(t, j))
                          && ShowName(t).value == Trim(t[..p])
  {
    FindFirstSpec(SeasonMarkerAt, t, 0);
  }

  /**
   * The movie key comes from the rightmost `(yyyy` when there is one, else from
   * the leftmost ` yyyy`; there is none exactly when neither occurs; the year
   * is always four digits.
   */
  lemma MovieKeySpec(t: string)
    ensures MovieKey(t).None? <==>
              (forall i :: 0 <= i < |t| ==> !OpenYearAt(t, i)) && (forall i :: 0 <= i < |t| ==> !SpacedYearAt(t, i))
    ensures MovieKey(t).Some? ==> |MovieKey(t).value.1| == 4 && AllDigits(MovieKey(t).value.1)
    ensures (exists i :: 0 <= i < |t| && OpenYearAt(t, i)) ==>
              exists p :: 0 <= p < |t| && OpenYearAt(t, p)
                          && (forall j :: p < j < |t| ==> !OpenYearAt(t, j))
                          && MovieKey(t) == Some((Trim(t[..p]), t[p + 1..p + 5]))
    ensures (forall i :: 0 <= i < |t| ==> !OpenYearAt(t, i)) && (exists i :: 0 <= i < |t| && SpacedYearAt(t, i)) ==>
              exists p :: 0 <= p < |t| && SpacedYearAt(t, p)
                          && (forall j :: 0 <= j < p ==> !SpacedYearAt(t, j))
                          && MovieKey(t) == Some((Trim(t[..p]), t[p + 1..p + 5]))
  {
    FindLastSpec(OpenYearAt, t, |t|);
    FindFirstSpec(SpacedYearAt, t, 0);
    var last, first := FindLast(OpenYearAt, t, |t|), FindFirst(SpacedYearAt, t, 0);
    if last.Some? {
      assert MovieKey(t) == Some((Trim(t[..last.value]), t[last.value + 1..last.value + 5]));
    } else if first.Some? {
      assert MovieKey(t) == Some((Trim(t[..first.value]), t[first.value + 1..first.value + 5]));
    }
  }

  /** The serial test holds exactly when `Season` or an `SxxEyy` tag occurs, or no `(yyyy)` does. */
  lemma IsSerialSpec(t: string)
    ensures IsSerial(t) <==>
              (exists i :: 0 <= i < |t| && SeasonWordAt(t, i))
              || (exists i :: 0 <= i < |t| && EpisodeTagAt(t, i))
              || (forall i :: 0 <= i < |t| ==> !ParenYearAt(t, i))
  {
    FindFirstSpec(SeasonWordAt, t, 0);
    FindFirstSpec(EpisodeTagAt, t, 0);
    FindFirstSpec(ParenYearAt, t, 0);
  }

  /**
   * The three outcomes of the classifier on the dot-free title `t`: a show
   * search exactly for a serial with a season marker, named by the text before
   * the leftmost marker; nothing to search exactly when that fails and neither a
   * `(yyyy` nor a ` yyyy` occurs; otherwise a movie search with a four-digit
   * year. A title with a `(yyyy)` year is never left without a search.
   */
  lemma ClassifySpec(title: string)
    ensures var t := DotsToSpaces(title);
            Classify(title).ShowSearch? <==> IsSerial(t) && exists i :: 0 <= i < |t| && SeasonMarkerAt(t, i)
    ensures var t := DotsToSpaces(title);
            Classify(title).ShowSearch? ==>
              exists p :: 0 <= p < |t| && SeasonMarkerAt(t, p)
                          && (forall j :: 0 <= j < p ==> !SeasonMarkerAt(t, j))
                          && Classify(title).name == Trim(t[..p])
    ensures var t := DotsToSpaces(title);
            Classify(title) == NoSearch <==>
              !(IsSerial(t) && exists i :: 0 <= i < |t| && SeasonMarkerAt(t, i))
              && (forall i :: 0 <= i < |t| ==> !OpenYearAt(t, i))
              && (forall i :: 0 <= i < |t| ==> !SpacedYearAt(t, i))
    ensures Classify(title).MovieSearch? ==> |Classify(title).year| == 4 && AllDigits(Classify(title).year)
    ensures var t := DotsToSpaces(title);
            (exists i :: 0 <= i < |t| && ParenYearAt(t, i)) ==> Classify(title) != NoSearch
  {
    var t := DotsToSpaces(title);
    ShowNameSpec(t);
    MovieKeySpec(t);
    if exists i :: 0 <= i < |t| && ParenYearAt(t, i) {
      var i :| 0 <= i < |t| && ParenYearAt(t, i);
      assert OpenYearAt(t, i);
    }
  }

  // ---------------------------------------------------------------------------
  // Examples

  /** No season marker occurs in a text without an `S`. */
  lemma NoMarkerWithoutS(t: string, from: nat, upto: nat)
    requires from <= upto <= |t|
    requires 'S' !in t[from..upto]
    ensures forall j :: from <= j < upto ==> !SeasonMarkerAt(t, j)
  {
    forall j | from <= j < upto ensures !SeasonMarkerAt(t, j) {
      assert t[from..upto][j - from] == t[j];
      if j + 7 <= |t| {
        assert t[j..j + 7][0] == t[j];
      }
    }
  }

  /** The dot-free form of an episode release title. */
  lemma ShowTitleDots()
    ensures DotsToSpaces("The.Thing.S02E05.720p") == "The Thing S02E05 720p"
  {
  }

  /** `The Thing S02E05 720p` is a serial: it carries an `SxxEyy` tag. */
  lemma ShowTitleSerial(t: string)
    requires t == "The Thing S02E05 720p"
    ensures IsSerial(t)
  {
    assert EpisodeTagAt(t, 10);
    IsSerialSpec(t);
  }

  /** A text made of `The Thing ` and a season marker has the show name `The Thing`. */
  lemma ShowTitleName(t: string, rest: string)
    requires t == "The Thing " + rest && SeasonMarkerAt(t, 10)
    ensures ShowName(t) == Some("The Thing")
  {
    assert t[..10] == "The Thing ";
    NoMarkerWithoutS(t, 0, 10);
    FindFirstIs(SeasonMarkerAt, t, 0, 10);
    assert Trim("The Thing ") == "The Thing";
  }

  /** `The Thing S02E05 720p` is a serial whose leftmost marker is `S02`. */
  lemma ShowTitleParts(t: string)
    requires t == "The Thing S02E05 720p"
    ensures IsSerial(t) && ShowName(t) == Some("The Thing")
  {
    ShowTitleSerial(t);
    assert SeasonMarkerAt(t, 10);
    ShowTitleName(t, "S02E05 720p");
  }

  /** An episode release: searched as a show named by the text before `S02`. */
  lemma ShowTitleExample()
    ensures Classify("The.Thing.S02E05.720p") == ShowSearch("The Thing")
  {
    ShowTitleDots();
    ShowTitleParts("The Thing S02E05 720p");
  }

  /** No `(yyyy` starts in a stretch without an opening parenthesis. */
  lemma NoOpenYearWithoutParen(t: string, from: nat, upto: nat)
    requires from <= upto <= |t|
    requires '(' !in t[from..upto]
    ensures forall j :: from <= j < upto ==> !OpenYearAt(t, j)
  {
    forall j | from <= j < upto ensures !OpenYearAt(t, j) {
      assert t[from..upto][j - from] == t[j];
    }
  }

  /** A text starting `Some Mo` with no other `S` has no season marker. */
  lemma NoShowInSomeMovie(t: string, rest: string)
    requires t == "Some Mo" + rest
    requires 'S' !in rest
    ensures ShowName(t) == None
  {
    assert t[7..] == rest;
    forall j | 7 <= j < |t| ensures t[j] != 'S' {
      assert t[j] == rest[j - 7];
    }
    assert 'S' !in t[1..7];
    NoMarkerWithoutS(t, 1, |t|);
    assert !StartsAt(t, 0, "Season ") by {
      assert t[0..7][1] == 'o';
    }
    assert !SeasonMarkerAt(t, 0);
    ShowNameSpec(t);
  }

  /** The dot-free form of a film title with its year in parentheses. */
  lemma MovieTitleDots()
    ensures DotsToSpaces("Some.Movie.(2020).1080p") == "Some Movie (2020) 1080p"
  {
  }

  /** Neither film title has a show name. */
  lemma MovieTitlesNoShow(t: string)
    requires t == "Some Movie (2020) 1080p" || t == "Some Movie 2020 1080p"
    ensures ShowName(t) == None
  {
    if t == "Some Movie (2020) 1080p" {
      NoShowInSomeMovie(t, "vie (2020) 1080p");
    } else {
      NoShowInSomeMovie(t, "vie 2020 1080p");
    }
  }

  /** In `Some Movie (2020) 1080p` the rightmost `(yyyy` is at 11. */
  lemma MovieTitleYear(t: string)
    requires t == "Some Movie (2020) 1080p"
    ensures FindLast(OpenYearAt, t, |t|) == Some(11)
  {
    assert OpenYearAt(t, 11);
    assert t[12..] == "2020) 1080p";
    NoOpenYearWithoutParen(t, 12, |t|);
    FindLastIs(OpenYearAt, t, |t|, 11);
  }

  /** `Some Movie (2020) 1080p` has no show name; its only `(yyyy` is at 11. */
  lemma MovieTitleParts(t: string)
    requires t == "Some Movie (2020) 1080p"
    ensures ShowName(t) == None && MovieKey(t) == Some(("Some Movie", "2020"))
  {
    MovieTitlesNoShow(t);
    MovieTitleYear(t);
    assert t[..11] == "Some Movie ";
    assert t[12..16] == "2020";
    assert Trim("Some Movie ") == "Some Movie";
  }

  /** A film with its year in parentheses: searched as a movie by name and year. */
  lemma MovieTitleExample()
    ensures Classify("Some.Movie.(2020).1080p") == MovieSearch("Some Movie", "2020")
  {
    MovieTitleDots();
    MovieTitleParts("Some Movie (2020) 1080p");
  }

  /** The dot-free form of a film title whose year is not in parentheses. */
  lemma SpacedYearDots()
    ensures DotsToSpaces("Some.Movie.2020.1080p") == "Some Movie 2020 1080p"
  {
  }

  /** `Some Movie 2020 1080p` has no `(yyyy`. */
  lemma SpacedYearNoParen(t: string)
    requires t == "Some Movie 2020 1080p"
    ensures FindLast(OpenYearAt, t, |t|) == None
  {
    assert t[0..] == t;
    NoOpenYearWithoutParen(t, 0, |t|);
    FindLastSpec(OpenYearAt, t, |t|);
  }

  /** In `Some Movie 2020 1080p` the leftmost ` yyyy` is at 10: the space at 4 is followed by a letter. */
  lemma SpacedYearAtTen(t: string)
    requires t == "Some Movie 2020 1080p"
    ensures FindFirst(SpacedYearAt, t, 0) == Some(10)
  {
    assert SpacedYearAt(t, 10);
    assert !SpacedYearAt(t, 4) by {
      assert !IsDigit(t[5]);
    }
    FindFirstIs(SpacedYearAt, t, 0, 10);
  }

  /** `Some Movie 2020 1080p` has no show name and no `(yyyy`; its first ` yyyy` is at 10. */
  lemma SpacedYearParts(t: string)
    requires t == "Some Movie 2020 1080p"
    ensures ShowName(t) == None && MovieKey(t) == Some(("Some Movie", "2020"))
  {
    MovieTitlesNoShow(t);
    SpacedYearNoParen(t);
    SpacedYearAtTen(t);
    assert t[..10] == "Some Movie";
    assert t[11..15] == "2020";
    assert Trim("Some Movie") == "Some Movie";
  }

  /** A film whose year is not in parentheses: the fallback pattern finds the spaced year. */
  lemma SpacedYearExample()
    ensures Classify("Some.Movie.2020.1080p") == MovieSearch("Some Movie", "2020")
  {
    SpacedYearDots();
    SpacedYearParts("Some Movie 2020 1080p");
  }
}
