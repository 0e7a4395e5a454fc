/**
 * The listing side of the 1337x spider (`T1337x::getPage`): which rows of a
 * category page become topics, what each topic carries, and when the crawl
 * continues with the next page.
 *
 * The DOM is abstracted: a page is its sequence of `tr` rows and the markup
 * of its pagination block. The clock, `\DateTime` parsing and `random_int`
 * are parameters.
 */
module Listing {
  import opened Wrappers
  import opened Text

  /** One `tr` of the `.featured-list table`. */
  datatype Row = Row(
    html: string,        // the row's markup
    time: Option<int>,   // the `td.coll-date` cell as a timestamp in seconds; None when `\DateTime` throws
    seeds: string,       // text of `td.seeds`
    leeches: string)     // text of `td.leeches`

  datatype ListingPage = ListingPage(rows: seq<Row>, pagination: string)

  /** A topic reference: the detail-page path, seed and leech counts, and a pacing delay in seconds. */
  datatype TopicDto = TopicDto(id: string, seed: int, leech: int, delay: int)

  /** A board cursor: category id, page number, look-back window in hours, and a delay in seconds. */
  datatype ForumDto = ForumDto(id: string, page: int, last: Option<int>, delay: int)

  /** What the `getPage` generator yields. */
  datatype Yielded = Topic(topic: TopicDto) | Forum(forum: ForumDto)

  /** The pre-filter on a row's markup (`strpos`). */
  const RowFilter: string := "href=\"/torrent"
  /** The capture `href="(/torrent/[^"]+)"` is `LinkLead` followed by `LinkStem[^"]+` and a quote. */
  const LinkLead: string := "href=\""
  const LinkStem: string := "/torrent/"
  /** The marker of a further page in the pagination block. */
  const LastMarker: string := "Last"

  /** `(int) preg_replace('#[^0-9]#', '', $cell)`: the number spelled by the digits of a cell. */
  function ParseCount(cell: string): nat {
    DecimalValue(Digits(cell))
  }

  /** A count is never negative, is 0 when the cell has no digit, and is below 10^d for d digits. */
  lemma ParseCountSpec(cell: string)
    ensures ParseCount(cell) >= 0
    ensures (forall i :: 0 <= i < |cell| ==> !IsDigit(cell[i])) ==> ParseCount(cell) == 0
    ensures ParseCount(cell) < Pow10(|Digits(cell)|)
  {
  }

  /**
   * Reading a cell left to right: a digit shifts the count one decimal place
   * and adds its value, any other character leaves the count alone.
   */
  lemma ParseCountStep(a: string, c: char)
    ensures ParseCount(a + [c]) == if IsDigit(c) then 10 * ParseCount(a) + DigitValue(c) else ParseCount(a)
  {
    DigitsSnoc(a, c);
    if IsDigit(c) {
      var ds := Digits(a) + [c];
      assert ds[..|ds| - 1] == Digits(a);
      assert DecimalValue(ds) == 10 * DecimalValue(Digits(a)) + DigitValue(c);
    } else {
      assert Digits(a) + [] == Digits(a);
    }
  }

  /** The detail-page path a row links to, as the capture of `href="(/torrent/[^"]+)"`. */
  function Link(html: string): Option<string> {
    CaptureQuoted(html, LinkLead, LinkStem)
  }

  /**
   * A link is found exactly when the markup holds `href="/torrent/…"` with a
   * non-empty, quote-free path; the id is that path, `/torrent/` included.
   */
  lemma LinkSpec(html: string)
    ensures Link(html).Some? <==> exists i, c :: 0 <= i < |html| && QuotedMatch(html, i, LinkLead, LinkStem, c)
    ensures Link(html).Some? ==>
              && LinkStem <= Link(html).value && |Link(html).value| > |LinkStem|
              && (forall k :: |LinkStem| <= k < |Link(html).value| ==> Link(html).value[k] != '"')
              && exists i :: 0 <= i < |html| && StartsAt(html, i, LinkLead + Link(html).value + "\"")
  {
    CaptureQuotedSpec(html, LinkLead, LinkStem);
    if exists i, c :: 0 <= i < |html| && QuotedMatch(html, i, LinkLead, LinkStem, c) {
      var i, c :| 0 <= i < |html| && QuotedMatch(html, i, LinkLead, LinkStem, c);
      QuotedAtComplete(html, i, LinkLead, LinkStem, c);
    }
  }

  /** `$forum->last ? new \DateTime("{$last} hours ago") : false`; a window of 0 is falsy too. */
  function Cutoff(last: Option<int>, now: int): Option<int> {
    match last
    case Some(h) => if h != 0 then Some(now - h * 3600) else None
    case None => None
  }

  /** `$time && $time < $after`: a parsed time strictly before a set cutoff. */
  predicate TooOld(time: Option<int>, after: Option<int>) {
    time.Some? && after.Some? && time.value < after.value
  }

  /** The topic id row `row` yields under cutoff `after`, or None when the row is passed over. */
  function RowTopicId(row: Row, after: Option<int>): Option<string> {
    if !Contains(row.html, RowFilter) then None
    else
      match Link(row.html)
      case None => None
      case Some(id) => if TooOld(row.time, after) then None else Some(id)
  }

  /** The verdict on every row of a page: the topic id it yields, or None. */
  function Verdicts(rows: seq<Row>, after: Option<int>): (v: seq<Option<string>>)
    ensures |v| == |rows|
  {
    if rows == [] then [] else Verdicts(rows[..|rows| - 1], after) + [RowTopicId(rows[|rows| - 1], after)]
  }

  lemma {:induction false} VerdictAt(rows: seq<Row>, after: Option<int>, k: nat)
    requires k < |rows|
    ensures Verdicts(rows, after)[k] == RowTopicId(rows[k], after)
  {
    if k < |rows| - 1 {
      VerdictAt(rows[..|rows| - 1], after, k);
    }
  }

  /** The topic yielded for row `n` with id `id`, taking the `n`-th random draw as pacing jitter. */
  function TopicFor(rows: seq<Row>, jitter: seq<int>, id: string, n: nat): TopicDto
    requires n < |rows| == |jitter|
  {
    TopicDto(id, ParseCount(rows[n].seeds), ParseCount(rows[n].leeches), n * 10 + jitter[n])
  }

  /** What the loop has yielded after examining the first `n` rows, given the verdicts `v`. */
  function TopicsBefore(rows: seq<Row>, v: seq<Option<string>>, jitter: seq<int>, n: nat): seq<Yielded>
    requires n <= |rows| == |v| == |jitter|
  {
    if n == 0 then []
    else
      TopicsBefore(rows, v, jitter, n - 1)
      + match v[n - 1]
        case Some(id) => [Topic(TopicFor(rows, jitter, id, n - 1))]
        case None => []
  }

  /** One more row examined appends that row's topic, if it yields one. */
  lemma TopicsBeforeStep(rows: seq<Row>, v: seq<Option<string>>, jitter: seq<int>, n: nat)
    requires n < |rows| == |v| == |jitter|
    ensures v[n].None? ==> TopicsBefore(rows, v, jitter, n + 1) == TopicsBefore(rows, v, jitter, n)
    ensures v[n].Some? ==>
              TopicsBefore(rows, v, jitter, n + 1)
              == TopicsBefore(rows, v, jitter, n) + [Topic(TopicFor(rows, jitter, v[n].value, n))]
  {
  }

  /** The continuation cursor: same category and window, the next page. */
  function NextCursor(forum: ForumDto, delay: int): ForumDto {
    ForumDto(forum.id, forum.page + 1, forum.last, delay)
  }

  /** Everything `getPage` yields for one page. */
  function PageOutput(forum: ForumDto, page: ListingPage, now: int, jitter: seq<int>, delay: int): seq<Yielded>
    requires |jitter| == |page.rows|
  {
    var topics := TopicsBefore(page.rows, Verdicts(page.rows, Cutoff(forum.last, now)), jitter, |page.rows|);
    topics + if topics != [] && Contains(page.pagination, LastMarker) then [Forum(NextCursor(forum, delay))] else []
  }

  /**
   * The tests one row of the `foreach` goes through: the `href="/torrent`
   * pre-filter of `array_filter`, the link capture, then the cutoff.
   */
  method RowVerdict(line: Row, after: Option<int>) returns (id: Option<string>)
    ensures id.Some? <==> Link(line.html).Some? && !TooOld(line.time, after)
    ensures id.Some? ==> id == Link(line.html)
    ensures id == RowTopicId(line, after)
  {
    if Link(line.html).Some? {
      LinkImpliesFilter(line.html);
    }
    id := None;
    if Contains(line.html, RowFilter) {
      var m := Link(line.html);
      if m.Some? && !TooOld(line.time, after) {
        id := m;
      }
    }
  }

  /**
   * `getPage`: scans the rows in page order and yields the topics, then
   * possibly the cursor of the next page. `jitter[n]` is the `random_int(10, 20)`
   * drawn when row `n` yields, `delay` the `random_int(1800, 3600)` of the cursor.
   * The PHP loop runs over the rows kept by `array_filter`, whose keys are the
   * original indices; looping over all rows and testing the filter inside is the same.
   */
  method GetPage(forum: ForumDto, page: ListingPage, now: int, jitter: seq<int>, delay: int)
    returns (out: seq<Yielded>)
    requires |jitter| == |page.rows|
    requires forall n :: 0 <= n < |jitter| ==> 10 <= jitter[n] <= 20
    requires 1800 <= delay <= 3600
    ensures out == PageOutput(forum, page, now, jitter, delay)
  {
    var exist;
    out, exist := CollectTopics(page.rows, Cutoff(forum.last, now), jitter);
    ghost var topics := out;
    if exist && Contains(page.pagination, LastMarker) {
      out := out + [Forum(ForumDto(forum.id, forum.page + 1, forum.last, delay))];
      assert out == topics + [Forum(NextCursor(forum, delay))];
    } else {
      assert out == topics + [];
    }
  }

  /** The `foreach` of `getPage`: the topics of the rows, in page order, and the `$exist` flag. */
  method CollectTopics(rows: seq<Row>, after: Option<int>, jitter: seq<int>)
    returns (out: seq<Yielded>, exist: bool)
    requires |jitter| == |rows|
    ensures out == TopicsBefore(rows, Verdicts(rows, after), jitter, |rows|)
    ensures exist <==> out != []
  {
    ghost var v := Verdicts(rows, after);
    exist := false;
    out := [];
    var n := 0;
    while n < |rows|
      invariant n <= |rows|
      invariant out == TopicsBefore(rows, v, jitter, n)
      invariant exist <==> out != []
    {
      var line := rows[n];
      var id := RowVerdict(line, after);
      VerdictAt(rows, after, n);
      assert v[n] == id;
      if id.Some? {
        var seed := ParseCount(line.seeds);
        var leech := ParseCount(line.leeches);
        out := out + [Topic(TopicDto(id.value, seed, leech, n * 10 + jitter[n]))];
        exist := true;
      }
      TopicsBeforeStep(rows, v, jitter, n);
      n := n + 1;
    }
  }

  // ---------------------------------------------------------------------------
  // Properties

  /** Digits in a cell are read as one decimal number, non-digits are ignored. */
  lemma ParseCountExamples()
    ensures ParseCount("1,234") == 1234
    ensures ParseCount(" 0 ") == 0
    ensures ParseCount("n/a") == 0
  {
    assert Digits("1,234") == "1234";
    assert "1234"[..3] == "123" && "123"[..2] == "12" && "12"[..1] == "1" && "1"[..0] == "";
    assert Digits(" 0 ") == "0";
    assert Digits("n/a") == "";
  }

  /** The `href="/torrent` pre-filter never rejects a row whose link the capture finds. */
  lemma LinkImpliesFilter(html: string)
    requires Link(html).Some?
    ensures Contains(html, RowFilter)
  {
    LinkSpec(html);
    var c := Link(html).value;
    var i :| 0 <= i < |html| && StartsAt(html, i, LinkLead + c + "\"");
    var w := LinkLead + c + "\"";
    assert html[i..i + |RowFilter|] == RowFilter by {
      assert html[i..i + |RowFilter|] == w[..|RowFilter|];
      assert w[..|RowFilter|] == (LinkLead + LinkStem)[..|RowFilter|];
    }
    assert StartsAt(html, i, RowFilter);
    ContainsIff(html, RowFilter);
  }

  /** Whether a row yields depends on that row alone: its link, its time and the cutoff. */
  lemma RowYieldsIff(row: Row, after: Option<int>)
    ensures RowTopicId(row, after).Some? <==> Link(row.html).Some? && !TooOld(row.time, after)
    ensures RowTopicId(row, after).Some? ==> RowTopicId(row, after) == Link(row.html)
  {
    if Link(row.html).Some? {
      LinkImpliesFilter(row.html);
    }
  }

  /** The indices, among the first `n`, of the rows whose verdict is to yield, in page order. */
  function YieldingRows(v: seq<Option<string>>, n: nat): seq<nat>
    requires n <= |v|
  {
    if n == 0 then []
    else YieldingRows(v, n - 1) + if v[n - 1].Some? then [n - 1] else []
  }

  /** `YieldingRows` lists exactly the yielding rows, each once, in increasing order. */
  lemma {:induction false} YieldingRowsExact(v: seq<Option<string>>, n: nat)
    requires n <= |v|
    ensures forall j :: 0 <= j < |YieldingRows(v, n)| ==> YieldingRows(v, n)[j] < n
    ensures forall i, j :: 0 <= i < j < |YieldingRows(v, n)| ==> YieldingRows(v, n)[i] < YieldingRows(v, n)[j]
    ensures forall k :: 0 <= k < n ==> (k in YieldingRows(v, n) <==> v[k].Some?)
  {
    if n > 0 {
      YieldingRowsExact(v, n - 1);
    }
  }

  /** The topics yielded are those of the yielding rows, one per row, in page order. */
  lemma {:induction false} TopicsAreYieldingRows(rows: seq<Row>, v: seq<Option<string>>, jitter: seq<int>, n: nat)
    requires n <= |rows| == |v| == |jitter|
    ensures |TopicsBefore(rows, v, jitter, n)| == |YieldingRows(v, n)|
    ensures forall j :: 0 <= j < |YieldingRows(v, n)| ==>
              var k := YieldingRows(v, n)[j];
              k < n && v[k].Some? && TopicsBefore(rows, v, jitter, n)[j] == Topic(TopicFor(rows, jitter, v[k].value, k))
  {
    if n > 0 {
      TopicsAreYieldingRows(rows, v, jitter, n - 1);
      var ts, ns := TopicsBefore(rows, v, jitter, n - 1), YieldingRows(v, n - 1);
      var ts', ns' := TopicsBefore(rows, v, jitter, n), YieldingRows(v, n);
      if v[n - 1].Some? {
        var t := Topic(TopicFor(rows, jitter, v[n - 1].value, n - 1));
        assert ts' == ts + [t];
        assert ns' == ns + [n - 1];
        forall j | 0 <= j < |ns'|
          ensures ns'[j] < n && v[ns'[j]].Some? && ts'[j] == Topic(TopicFor(rows, jitter, v[ns'[j]].value, ns'[j]))
        {
          if j < |ns| {
            assert ns'[j] == ns[j] && ts'[j] == ts[j];
          } else {
            assert ns'[j] == n - 1 && ts'[j] == t;
          }
        }
      } else {
        assert ts' == ts;
        assert ns' == ns;
      }
    }
  }

  /**
   * Cutoff: a linked row is passed over exactly when its time parsed and is
   * strictly before the cutoff; an older row does not stop the scan, so every
   * later row is judged on its own.
   */
  lemma CutoffSkipsOnlyOlderRows(rows: seq<Row>, after: Option<int>, k: nat, m: nat)
    requires k < m < |rows|
    requires Link(rows[k].html).Some? && TooOld(rows[k].time, after)
    requires Link(rows[m].html).Some? && !TooOld(rows[m].time, after)
    ensures k !in YieldingRows(Verdicts(rows, after), |rows|)
    ensures m in YieldingRows(Verdicts(rows, after), |rows|)
  {
    YieldingRowsExact(Verdicts(rows, after), |rows|);
    VerdictAt(rows, after, k);
    VerdictAt(rows, after, m);
    RowYieldsIff(rows[k], after);
    RowYieldsIff(rows[m], after);
  }

  /** A linked row whose time does not parse always yields. */
  lemma UnparsedTimeAlwaysYields(rows: seq<Row>, after: Option<int>, k: nat)
    requires k < |rows| && rows[k].time.None? && Link(rows[k].html).Some?
    ensures k in YieldingRows(Verdicts(rows, after), |rows|)
  {
    YieldingRowsExact(Verdicts(rows, after), |rows|);
    VerdictAt(rows, after, k);
    RowYieldsIff(rows[k], after);
  }

  /** Without a look-back window (null or 0 hours), every linked row yields. */
  lemma NoWindowYieldsEveryLinkedRow(rows: seq<Row>, last: Option<int>, now: int, k: nat)
    requires last.None? || last == Some(0)
    requires k < |rows|
    ensures k in YieldingRows(Verdicts(rows, Cutoff(last, now)), |rows|) <==> Link(rows[k].html).Some?
  {
    YieldingRowsExact(Verdicts(rows, Cutoff(last, now)), |rows|);
    VerdictAt(rows, Cutoff(last, now), k);
    RowYieldsIff(rows[k], Cutoff(last, now));
  }

  /**
   * Every topic carries its row's link, non-negative counts, and the pacing
   * offset `10 n + r` with `10 <= r <= 20` for its row index `n`; so offsets
   * never decrease along the output.
   */
  lemma TopicFields(rows: seq<Row>, after: Option<int>, jitter: seq<int>)
    requires |rows| == |jitter|
    requires forall n :: 0 <= n < |jitter| ==> 10 <= jitter[n] <= 20
    ensures var ts := TopicsBefore(rows, Verdicts(rows, after), jitter, |rows|);
            var ns := YieldingRows(Verdicts(rows, after), |rows|);
            && |ts| == |ns|
            && (forall j :: 0 <= j < |ts| ==>
                  && ns[j] < |rows|
                  && ts[j].Topic?
                  && Some(ts[j].topic.id) == Link(rows[ns[j]].html)
                  && ts[j].topic.seed == ParseCount(rows[ns[j]].seeds) >= 0
                  && ts[j].topic.leech == ParseCount(rows[ns[j]].leeches) >= 0
                  && 10 * ns[j] + 10 <= ts[j].topic.delay <= 10 * ns[j] + 20)
            && (forall i, j :: 0 <= i < j < |ts| ==> ts[i].topic.delay <= ts[j].topic.delay)
  {
    var v := Verdicts(rows, after);
    var ts := TopicsBefore(rows, v, jitter, |rows|);
    var ns := YieldingRows(v, |rows|);
    TopicsAreYieldingRows(rows, v, jitter, |rows|);
    YieldingRowsExact(v, |rows|);
    forall j | 0 <= j < |ts| ensures Some(ts[j].topic.id) == Link(rows[ns[j]].html) {
      VerdictAt(rows, after, ns[j]);
      RowYieldsIff(rows[ns[j]], after);
    }
  }

  /**
   * Continuation: the cursor is yielded exactly when some topic was yielded
   * and the pagination block mentions `Last`; it comes after every topic,
   * keeps the category and window, advances the page by one and carries the
   * listing delay.
   */
  lemma ContinuationRule(forum: ForumDto, page: ListingPage, now: int, jitter: seq<int>, delay: int)
    requires |jitter| == |page.rows|
    requires 1800 <= delay <= 3600
    ensures var out := PageOutput(forum, page, now, jitter, delay);
            var ns := YieldingRows(Verdicts(page.rows, Cutoff(forum.last, now)), |page.rows|);
            && ((exists j :: 0 <= j < |out| && out[j].Forum?) <==> ns != [] && Contains(page.pagination, LastMarker))
            && (forall j :: 0 <= j < |out| - 1 ==> out[j].Topic?)
            && (out != [] && out[|out| - 1].Forum? ==>
                  var c := out[|out| - 1].forum;
                  c.id == forum.id && c.page == forum.page + 1 && c.last == forum.last && 1800 <= c.delay <= 3600)
  {
    var v := Verdicts(page.rows, Cutoff(forum.last, now));
    var ts := TopicsBefore(page.rows, v, jitter, |page.rows|);
    var out := PageOutput(forum, page, now, jitter, delay);
    TopicsAreYieldingRows(page.rows, v, jitter, |page.rows|);
    assert forall j :: 0 <= j < |ts| ==> ts[j].Topic?;
    if |out| > |ts| {
      assert out[|out| - 1].Forum?;
    }
  }
}
