/** `src/bs4_helpers.py`: the per-field accessors of a Steam listing and the record
    `scrape_game_listing` assembles from them. A page is given as the texts and attribute
    values the accessors' selectors would pick out; `None` marks a selector that finds
    nothing, which in the source surfaces as an `AttributeError`, `IndexError` or
    `KeyError`. */
module Bs4Helpers {
  import opened Maybe
  import opened PyText
  import opened Records
  import opened Utils
  import FailureRecords

  // ---------------------------------------------------------------------------
  // Search-results price (get_price_from_listings_page)

  /** The price cells of one search result: the text of the regular-price `div` and of
      the discounted-price `div`, each `None` when the result has no such cell. */
  datatype PriceCells = PriceCells(regular: Option<string>, discounted: Option<string>)

  datatype PriceAndSale = PriceAndSale(price: Value, sale: Value)

  /** The stripped cell text after its first `"$ "` (all of it when there is none),
      with every later `"CDN$ "` turned into `", "`. */
  function PriceText(cell: string): string {
    Replace(AfterFirst(Strip(cell), "$ "), "CDN$ ", ", ")
  }

  /** `get_price_from_listings_page`, given the result's name-and-price container. The
      regular cell wins; the discounted cell is read only when there is no regular one,
      and only then is the game on sale. No container, no cell, or an empty price text
      give null for both. */
  function GetPriceFromListingsPage(container: Option<PriceCells>): (r: PriceAndSale)
    ensures r.price == Null <==> r.sale == Null
    ensures r.sale == Bool(false) <==>
      container.Some? && container.value.regular.Some? && PriceText(container.value.regular.value) != ""
    ensures r.sale == Bool(true) <==>
      container.Some? && container.value.regular.None? && container.value.discounted.Some? &&
      PriceText(container.value.discounted.value) != ""
    ensures r.sale == Bool(false) ==> r.price == Str(PriceText(container.value.regular.value))
    ensures r.sale == Bool(true) ==> r.price == Str(PriceText(container.value.discounted.value))
    ensures r.price == Null || r.sale.Bool?
  {
    match container
    case None => PriceAndSale(Null, Null)
    case Some(cells) =>
      if cells.regular.Some? then Priced(cells.regular.value, false)
      else if cells.discounted.Some? then Priced(cells.discounted.value, true)
      else PriceAndSale(Null, Null)
  }

  /** The tail of `get_price_from_listings_page` once a cell has been found: its price
      text, with both values null when that text is empty. */
  function Priced(cell: string, sale: bool): PriceAndSale {
    var price := PriceText(cell);
    if price == "" then PriceAndSale(Null, Null) else PriceAndSale(Str(price), Bool(sale))
  }

  /** The characters of a bare amount such as `19.99` or `1,299.00`. */
  predicate IsAmountChar(c: char) {
    IsAsciiDigit(c) || c == '.' || c == ','
  }

  predicate IsAmount(a: string) {
    a != "" && forall i :: 0 <= i < |a| ==> IsAmountChar(a[i])
  }

  lemma AmountHasNoDollar(a: string)
    requires IsAmount(a)
    ensures '$' !in a && 'C' !in a && !IsSpace(a[0]) && !IsSpace(a[|a| - 1])
  {
  }

  /** A cell rendered as `"CDN$ "` and an amount gives back the amount. */
  lemma PriceOfOneAmount(a: string)
    requires IsAmount(a)
    ensures PriceText("CDN$ " + a) == a
  {
    AmountHasNoDollar(a);
    var cell := "CDN$ " + a;
    assert cell[0] == 'C' && cell[|cell| - 1] == a[|a| - 1];
    StripUnchanged(cell);
    var after := AfterFirst(cell, "$ ");
    FirstDollarAt3(cell, a);
    assert after == a;
    ReplaceWithoutFirstChar(a, "CDN$ ", ", ");
  }

  /** A struck-through regular amount followed by the discounted one, the way a sale
      cell reads, gives the two amounts separated by `", "`. */
  lemma PriceOfTwoAmounts(a: string, b: string)
    requires IsAmount(a) && IsAmount(b)
    ensures PriceText("CDN$ " + a + "CDN$ " + b) == a + ", " + b
  {
    AmountHasNoDollar(a);
    AmountHasNoDollar(b);
    var rest := a + "CDN$ " + b;
    var cell := "CDN$ " + rest;
    assert cell == "CDN$ " + a + "CDN$ " + b;
    assert cell[0] == 'C' && cell[|cell| - 1] == b[|b| - 1];
    StripUnchanged(cell);
    FirstDollarAt3(cell, rest);
    ReplaceAfterPrefix(a, "CDN$ ", ", ", b);
    ReplaceWithoutFirstChar(b, "CDN$ ", ", ");
  }

  /** In `"CDN$ " + rest` the first `"$ "` is the one at index 3. */
  lemma FirstDollarAt3(cell: string, rest: string)
    requires cell == "CDN$ " + rest
    ensures AfterFirst(cell, "$ ") == rest
  {
    assert OccursAt(cell, "$ ", 3);
    assert Contains(cell, "$ ");
    var r := AfterFirst(cell, "$ ");
    var k := |cell| - |r| - 2;
    assert OccursAt(cell, "$ ", k);
    assert cell[k..k + 2][0] == cell[k] == '$';
    assert forall j :: 0 <= j < 3 ==> cell[j] != '$';
    assert !OccursAt(cell, "$ ", 3) || k <= 3;
  }

  // ---------------------------------------------------------------------------
  // The listing page

  /** A `span` of a review summary: its text and its `data-tooltip-html` attribute. */
  datatype Span = Span(text: string, tooltip: Option<string>)

  /** What the accessors read from a listing page. */
  datatype ListingPage = ListingPage(
    /** Text of `span.game_review_summary`. */
    reviewSummary: Option<string>,
    /** The `span`s of `div.summary_section`. */
    summarySpans: Option<seq<Span>>,
    /** The `span`s of the first `div` inside `div.user_reviews_filter_score visible`. */
    filteredSpans: Option<seq<Span>>,
    /** For each review type: the text of the `span.user_reviews_count` inside the
        first `label` whose `for` attribute is that type (what `soup.find` returns);
        types whose first such label has no count span are not keys. */
    reviewCounts: map<string, string>,
    /** Text of `div.details_block`. */
    detailsBlock: Option<string>,
    /** The first column of the table in `div#languageTable`. */
    languageNames: Option<seq<string>>,
    /** The `span`s of `div.game_area_purchase_platform`, each with its `class` list or
        `None` when it has no `class` attribute. */
    platformSpans: Option<seq<Option<seq<string>>>>,
    /** Texts of the `a` elements in `div.popular_tags`. */
    popularTags: Option<seq<string>>,
    /** Text of the `span` in the achievements banner. */
    achievements: Option<string>,
    /** `src` of the rating icon image. */
    ratingIconSrc: Option<string>,
    /** Text of the rating descriptors paragraph. */
    ratingDescriptors: Option<string>,
    /** Texts of the `div`s inside `div.DRM_notice`. */
    drmNotices: Option<seq<string>>,
    /** The `data-os` values that have a `div.game_area_sys_req`. */
    sysReqPlatforms: set<string>,
    /** Texts of the `li`s of the first left (minimum) and right (recommended)
        requirements columns. */
    sysReqMinimum: Option<seq<string>>,
    sysReqRecommended: Option<seq<string>>
  )

  /** Why `scrape_game_listing` raises. */
  datatype ListingError =
    | ThresholdMarkerMissing(tooltip: string)
    | NoDetailsBlock
    | NoLanguageTable

  // ---------------------------------------------------------------------------
  // Overall rating and review score

  /** `get_overall_review_rating`: the review-summary text, else the text of the first
      summary-section span, else null. */
  function GetOverallReviewRating(page: ListingPage): (r: Value)
    ensures r == Null || r.Str?
    ensures page.reviewSummary.Some? ==> r == Str(page.reviewSummary.value)
    ensures r == Null <==>
      page.reviewSummary.None? && (page.summarySpans.None? || page.summarySpans.value == [])
    ensures page.reviewSummary.None? && page.summarySpans.Some? && page.summarySpans.value != [] ==>
      r == Str(page.summarySpans.value[0].text)
  {
    match page.reviewSummary
    case Some(t) => Str(t)
    case None =>
      match page.summarySpans
      case Some(spans) => if spans != [] then Str(spans[0].text) else Null
      case None => Null
  }

  const NeedMoreReviews := "Need more user reviews"
  const ThresholdMarker := "for this game are "

  datatype ReviewScore = ReviewScore(pct: Value, threshold: Value)

  /** The text between the first and the second threshold marker, every `.` removed. */
  function ThresholdText(tooltip: string): string
    requires Contains(tooltip, ThresholdMarker)
  {
    Replace(Split(tooltip, ThresholdMarker)[1], ".", "")
  }

  /** The `try`/`else` of both percentage accessors, given the tooltip they read: no
      tooltip, or one asking for more reviews, gives null for both; otherwise the
      percentage is the text before the first `%`, and a tooltip without the threshold
      marker raises. */
  function ScoreFromTooltip(tooltip: Option<string>): (r: Result<ReviewScore, ListingError>)
    ensures r.Err? <==>
      tooltip.Some? && !Contains(tooltip.value, NeedMoreReviews) && !Contains(tooltip.value, ThresholdMarker)
    ensures r == Ok(ReviewScore(Null, Null)) <==> tooltip.None? || Contains(tooltip.value, NeedMoreReviews)
    ensures r.Ok? && r.value.pct != Null ==>
      r.value.pct.Float? && IsTextBefore(tooltip.value, '%', r.value.pct.literal)
    ensures r.Ok? && r.value.threshold != Null ==>
      r.value.threshold.Str? && '.' !in r.value.threshold.s
  {
    match tooltip
    case None => Ok(ReviewScore(Null, Null))
    case Some(t) =>
      if Contains(t, NeedMoreReviews) then Ok(ReviewScore(Null, Null))
      else if !Contains(t, ThresholdMarker) then Err(ThresholdMarkerMissing(t))
      else
        var lit := Split(t, "%")[0];
        SplitFirstChar(t, '%');
        ReplaceRemovesChar(Split(t, ThresholdMarker)[1], '.', "");
        Ok(ReviewScore(Float(lit), Str(ThresholdText(t))))
  }

  /** The threshold is the text between the first and second markers, dots removed; it
      never contains a dot. */
  lemma ThresholdBetweenMarkers(t: string)
    requires Contains(t, ThresholdMarker)
    ensures var after := Partition(t, ThresholdMarker).after;
      ThresholdText(t) == Replace(Partition(after, ThresholdMarker).before, ".", "")
    ensures '.' !in ThresholdText(t)
  {
    SplitSecond(t, ThresholdMarker);
    ReplaceRemovesChar(Split(t, ThresholdMarker)[1], '.', "");
  }

  /** A tooltip `p + "%" + middle + "for this game are " + q`, as in
      `"92% of the 1,234 user reviews for this game are positive."`, gives back `p` as
      the percentage and `q` without its dots as the threshold. */
  lemma ScoreOfTooltip(p: string, middle: string, q: string)
    requires '%' !in p
    requires !Contains(p + "%" + middle, ThresholdMarker) && !Contains(q, ThresholdMarker)
    requires !Contains(p + "%" + middle + ThresholdMarker + q, NeedMoreReviews)
    ensures ScoreFromTooltip(Some(p + "%" + middle + ThresholdMarker + q)) ==
      Ok(ReviewScore(Float(p), Str(Replace(q, ".", ""))))
  {
    var t := p + "%" + middle + ThresholdMarker + q;
    PercentOfTooltip(p, middle, q);
    ThresholdOfTooltip(p + "%" + middle, q);
    ScoreOfMarkedTooltip(t);
  }

  lemma ScoreOfMarkedTooltip(t: string)
    requires !Contains(t, NeedMoreReviews) && Contains(t, ThresholdMarker)
    ensures ScoreFromTooltip(Some(t)) == Ok(ReviewScore(Float(Split(t, "%")[0]), Str(ThresholdText(t))))
  {
  }

  lemma PercentOfTooltip(p: string, middle: string, q: string)
    requires '%' !in p
    ensures Split(p + "%" + middle + ThresholdMarker + q, "%")[0] == p
  {
    var rest := middle + ThresholdMarker + q;
    assert p + "%" + rest == p + "%" + middle + ThresholdMarker + q;
    SplitFirstAt(p, '%', rest);
  }

  lemma ThresholdOfTooltip(x: string, q: string)
    requires !Contains(x, ThresholdMarker) && !Contains(q, ThresholdMarker)
    ensures Contains(x + ThresholdMarker + q, ThresholdMarker)
    ensures ThresholdText(x + ThresholdMarker + q) == Replace(q, ".", "")
  {
    var t := x + ThresholdMarker + q;
    MarkerFirstAfter(x, q);
    PartitionAt(x, ThresholdMarker, q);
    assert OccursAt(t, ThresholdMarker, |x|);
    SplitSecond(t, ThresholdMarker);
  }

  /** In `x + marker + q` with no marker inside `x`, the first marker is the one after
      `x`: no occurrence can start in `x` and run into it, since the marker's first
      letter `f` appears nowhere else in it. */
  lemma MarkerFirstAfter(x: string, q: string)
    requires !Contains(x, ThresholdMarker)
    ensures forall k :: 0 <= k < |x| ==> !OccursAt(x + ThresholdMarker + q, ThresholdMarker, k)
  {
    var m := ThresholdMarker;
    var t := x + m + q;
    assert forall j :: 1 <= j < |m| ==> m[j] != 'f';
    assert t[|x|..|x| + |m|] == m;
    forall k | 0 <= k < |x|
      ensures !OccursAt(t, m, k)
    {
      if k + |m| <= |x| {
        assert t[k..k + |m|] == x[k..k + |m|];
        assert OccursAt(t, m, k) ==> OccursAt(x, m, k);
      } else {
        assert t[k..k + |m|][|x| - k] == t[|x|] == 'f' != m[|x| - k];
      }
    }
  }

  /** The tooltip `get_pct_overall_review_rating` reads: the first summary span's. */
  function OverallTooltip(page: ListingPage): (r: Option<string>)
    ensures page.summarySpans.Some? && page.summarySpans.value != [] ==>
      r == page.summarySpans.value[0].tooltip
    ensures page.summarySpans.None? || page.summarySpans.value == [] ==> r == None
  {
    match page.summarySpans
    case None => None
    case Some(spans) =>
      match At(spans, 0)
      case None => None
      case Some(span) => span.tooltip
  }

  /** The tooltip `get_pct_overall_review_rating_language_filtered` reads: the last span
      of the language-filtered score's. */
  function FilteredTooltip(page: ListingPage): (r: Option<string>)
    ensures page.filteredSpans.Some? && page.filteredSpans.value != [] ==>
      r == page.filteredSpans.value[|page.filteredSpans.value| - 1].tooltip
    ensures page.filteredSpans.None? || page.filteredSpans.value == [] ==> r == None
  {
    match page.filteredSpans
    case None => None
    case Some(spans) =>
      match At(spans, -1)
      case None => None
      case Some(span) => span.tooltip
  }

  // ---------------------------------------------------------------------------
  // Counts

  /** `int(regex_get_num_from_str(text))` inside a `try` whose handler gives null: the
      number the digits of `text` spell, or null when there are none. */
  function CountFromText(text: string): (r: Value)
    ensures r == Null <==> NumFromStr(text) == ""
    ensures r != Null ==> r == Int(DecimalValue(NumFromStr(text)))
  {
    match ParseInt(NumFromStr(text))
    case Some(n) => Int(n)
    case None => Null
  }

  /** A count written between two digit-free texts reads back as that count. */
  lemma CountOfLabel(prefix: string, n: nat, suffix: string)
    requires forall i :: 0 <= i < |prefix| ==> !IsAsciiDigit(prefix[i])
    requires forall i :: 0 <= i < |suffix| ==> !IsAsciiDigit(suffix[i])
    ensures CountFromText(prefix + Show(n) + suffix) == Int(n)
  {
    var d := Show(n);
    DigitsBetween(prefix, d, suffix);
    CommaReplaceIsNoOp(prefix + d + suffix);
    assert NumFromStr(prefix + d + suffix) == d;
  }

  lemma DigitsBetween(prefix: string, d: string, suffix: string)
    requires forall i :: 0 <= i < |prefix| ==> !IsAsciiDigit(prefix[i])
    requires forall i :: 0 <= i < |suffix| ==> !IsAsciiDigit(suffix[i])
    requires AllDigits(d)
    ensures StripNonDigits(prefix + d + suffix) == d
  {
    KeepAppend(prefix + d, suffix, IsAsciiDigit);
    KeepAppend(prefix, d, IsAsciiDigit);
    KeepNone(prefix, IsAsciiDigit);
    KeepNone(suffix, IsAsciiDigit);
    KeepAll(d, IsAsciiDigit);
  }

  /** The count of one review-type label: the digits of its count span, or null when the
      label or its span is missing. */
  function ReviewCount(page: ListingPage, reviewType: string): (r: Value)
    ensures r == Null <==> reviewType !in page.reviewCounts
    ensures r != Null ==> r.Str? && AllDigits(r.s)
    ensures reviewType in page.reviewCounts ==> r == Str(NumFromStr(page.reviewCounts[reviewType]))
  {
    if reviewType in page.reviewCounts then Str(NumFromStr(page.reviewCounts[reviewType])) else Null
  }

  /** `get_all_reviews_count`: the digits of the all-reviews label as a string; failing
      that, the number in the second summary span as an `int`; failing that, null. */
  function GetAllReviewsCount(page: ListingPage): (r: Value)
    ensures "review_type_all" in page.reviewCounts ==> r == ReviewCount(page, "review_type_all")
    ensures r.Int? <==>
      "review_type_all" !in page.reviewCounts &&
      page.summarySpans.Some? && |page.summarySpans.value| >= 2 &&
      NumFromStr(page.summarySpans.value[1].text) != ""
    ensures r.Int? ==> r.i == DecimalValue(NumFromStr(page.summarySpans.value[1].text))
    ensures r == Null || r.Int? || (r.Str? && AllDigits(r.s))
    ensures r.Str? ==> "review_type_all" in page.reviewCounts
  {
    if "review_type_all" in page.reviewCounts then ReviewCount(page, "review_type_all")
    else
      match page.summarySpans
      case None => Null
      case Some(spans) =>
        match At(spans, 1)
        case None => Null
        case Some(span) => CountFromText(span.text)
  }

  /** `get_steam_achievements`: the number in the achievements banner, or null. */
  function GetSteamAchievements(page: ListingPage): (r: Value)
    ensures r == Null <==> page.achievements.None? || NumFromStr(page.achievements.value) == ""
    ensures r != Null ==> r == Int(DecimalValue(NumFromStr(page.achievements.value)))
  {
    match page.achievements
    case None => Null
    case Some(t) => CountFromText(t)
  }

  // ---------------------------------------------------------------------------
  // Setting keys of a record

  /** `r` with each key of `keys`, in order, set to `value(key)`: the loop body
      `listing_info[key] = value` run over `keys`. */
  function SetEach(r: Record, keys: seq<string>, value: string -> Value): (out: Record)
    ensures out.Keys == r.Keys + Columns(keys)
    ensures forall k :: k in keys ==> out[k] == value(k)
    ensures forall k :: k in r && k !in keys ==> out[k] == r[k]
    decreases |keys|
  {
    if keys == [] then r else SetEach(r[keys[0] := value(keys[0])], keys[1..], value)
  }

  const SubReviewTypes: seq<string> := ["review_type_positive", "review_type_negative", "review_language_mine"]

  /** `get_sub_review_counts`: the three review-type counts are set, each to the digits
      of its label or null; every other key keeps its value. */
  function GetSubReviewCounts(page: ListingPage, stats: Record): (r: Record)
    ensures r.Keys == stats.Keys + Columns(SubReviewTypes)
    ensures forall k :: k in SubReviewTypes ==> r[k] == ReviewCount(page, k)
    ensures forall k :: k in SubReviewTypes ==> r[k] == Null || (r[k].Str? && AllDigits(r[k].s))
    ensures forall k :: k in stats && k !in SubReviewTypes ==> r[k] == stats[k]
  {
    SetEach(stats, SubReviewTypes, k => ReviewCount(page, k))
  }

  // ---------------------------------------------------------------------------
  // Release details

  const ReleaseFields: seq<string> := [
    "Title", "Genre", "Release Date", "Early Access Release Date", "Developer", "Publisher",
    "Franchise"
  ]

  /** The details-block text once stripped, with `":\n"` turned into `": "` and then
      `"\n\n"` into `"\n"` twice over. */
  function NormalizeDetails(text: string): string {
    Replace(Replace(Replace(Strip(text), ":\n", ": "), "\n\n", "\n"), "\n\n", "\n")
  }

  /** One field of the details block: null when nothing follows the first
      `"<field>: "`, else the rest of that line. */
  function ReleaseField(block: string, field: string): (v: Value)
    ensures v == Null || v.Str?
    ensures v == Null <==> Partition(block, field + ": ").after == ""
    ensures v.Str? ==> '\n' !in v.s && IsTextBefore(Partition(block, field + ": ").after, '\n', v.s)
  {
    var after := Partition(block, field + ": ").after;
    if after == "" then Null
    else
      SplitFirstChar(after, '\n');
      Str(Split(after, "\n")[0])
  }

  /** A block that opens with `"<field>: <value>"` and a line break gives `value` for
      that field. */
  lemma ReleaseFieldOfFirstLine(field: string, value: string, rest: string)
    requires value != "" && '\n' !in value
    ensures ReleaseField(field + ": " + value + "\n" + rest, field) == Str(value)
  {
    var after := value + "\n" + rest;
    assert field + ": " + value + "\n" + rest == "" + (field + ": ") + after;
    PartitionAt("", field + ": ", after);
    SplitFirstAt(value, '\n', rest);
  }

  /** A field whose first letter is not in the text before it reads the line after
      its first `"<field>: "`. */
  lemma ReleaseFieldAfter(pre: string, field: string, value: string, rest: string)
    requires field != "" && field[0] !in pre
    requires value != "" && '\n' !in value
    ensures ReleaseField(pre + field + ": " + value + "\n" + rest, field) == Str(value)
  {
    var sep := field + ": ";
    var after := value + "\n" + rest;
    assert pre + field + ": " + value + "\n" + rest == pre + sep + after;
    assert sep[0] == field[0];
    PartitionAfterFree(pre, sep, after);
    SplitFirstAt(value, '\n', rest);
  }

  /** A field name that ends a longer field name also matches inside that longer
      name: when the longer field's line comes first, both read its value. */
  lemma FieldInsideLongerField(pre: string, field: string, value: string, rest: string)
    requires field != "" && field[0] !in pre
    requires value != "" && '\n' !in value
    ensures var block := pre + field + ": " + value + "\n" + rest;
      ReleaseField(block, field) == Str(value) && ReleaseField(block, pre + field) == Str(value)
  {
    ReleaseFieldAfter(pre, field, value, rest);
    ReleaseFieldOfFirstLine(pre + field, value, rest);
  }

  /** `"Release Date: "` also occurs inside `"Early Access Release Date: "`, so when the
      early-access line comes first, the release date reads the early-access date. */
  lemma ReleaseDateReadsEarlyAccessLine(date: string, rest: string)
    requires date != "" && '\n' !in date
    ensures var block := "Early Access " + "Release Date" + ": " + date + "\n" + rest;
      ReleaseField(block, "Release Date") == Str(date) &&
      ReleaseField(block, "Early Access " + "Release Date") == Str(date)
  {
    assert "Release Date"[0] !in "Early Access ";
    FieldInsideLongerField("Early Access ", "Release Date", date, rest);
  }

  /** `get_release_summary_details`: with no details block it raises; otherwise it sets
      exactly the seven field keys, each to its line of the normalised block or null, and
      keeps every other key. */
  function GetReleaseSummaryDetails(page: ListingPage, info: Record): (r: Result<Record, ListingError>)
    ensures r.Err? <==> page.detailsBlock.None?
    ensures r.Ok? ==> r.value.Keys == info.Keys + Columns(ReleaseFields)
    ensures r.Ok? ==> forall f :: f in ReleaseFields ==>
      r.value[f] == ReleaseField(NormalizeDetails(page.detailsBlock.value), f)
    ensures r.Ok? ==> forall f :: f in ReleaseFields ==>
      r.value[f] == Null || (r.value[f].Str? && '\n' !in r.value[f].s)
    ensures r.Ok? ==> forall k :: k in info && k !in ReleaseFields ==> r.value[k] == info[k]
  {
    match page.detailsBlock
    case None => Err(NoDetailsBlock)
    case Some(text) =>
      var block := NormalizeDetails(text);
      Ok(SetEach(info, ReleaseFields, f => ReleaseField(block, f)))
  }

  // ---------------------------------------------------------------------------
  // Languages

  /** `get_languages`: with no language table it raises; otherwise `languages` is the
      first column joined by `", "` and `num_languages` the number of rows. */
  function GetLanguages(page: ListingPage, info: Record): (r: Result<Record, ListingError>)
    ensures r.Err? <==> page.languageNames.None?
    ensures r.Ok? ==> r.value.Keys == info.Keys + {"languages", "num_languages"}
    ensures r.Ok? ==> r.value["languages"] == Str(Join(page.languageNames.value, ", "))
    ensures r.Ok? ==> r.value["num_languages"] == Int(|page.languageNames.value|)
    ensures r.Ok? ==> forall k :: k in info && k != "languages" && k != "num_languages" ==>
      r.value[k] == info[k]
  {
    match page.languageNames
    case None => Err(NoLanguageTable)
    case Some(names) =>
      Ok(info["languages" := Str(Join(names, ", "))]["num_languages" := Int(|names|)])
  }

  /** The joined languages split back into the table's names, as many as
      `num_languages` counts, when no name holds `", "`. */
  lemma LanguagesRoundTrip(page: ListingPage, info: Record)
    requires page.languageNames.Some? && |page.languageNames.value| >= 1
    requires forall i :: 0 <= i < |page.languageNames.value| ==> !Contains(page.languageNames.value[i], ", ")
    ensures var r := GetLanguages(page, info).value;
      r["languages"].Str? && r["num_languages"].Int? &&
      Split(r["languages"].s, ", ") == page.languageNames.value &&
      |Split(r["languages"].s, ", ")| == r["num_languages"].i
  {
    SplitJoinComma(page.languageNames.value);
  }

  // ---------------------------------------------------------------------------
  // Platforms

  const PlatformMarker := "platform_img"

  /** The class names of the spans, in order, leaving out `platform_img`. */
  function PlatformNames(classes: seq<seq<string>>): (r: seq<string>)
    ensures PlatformMarker !in r
    ensures forall c :: c in r <==> c != PlatformMarker && exists i :: 0 <= i < |classes| && c in classes[i]
    decreases |classes|
  {
    if classes == [] then []
    else
      Without(classes[0], PlatformMarker) + PlatformNames(classes[1..])
  }

  /** The names of one span: its class list in order, less `platform_img`. */
  lemma PlatformNamesOfSpan(cs: seq<string>)
    ensures PlatformNames([cs]) == Without(cs, PlatformMarker)
  {
    assert [cs][1..] == [];
    assert PlatformNames([cs]) == Without(cs, PlatformMarker) + [];
  }

  /** The names of consecutive spans are the first spans' names followed by the others':
      together with `PlatformNamesOfSpan` this fixes the order of the result. */
  lemma {:induction false} PlatformNamesAppend(a: seq<seq<string>>, b: seq<seq<string>>)
    ensures PlatformNames(a + b) == PlatformNames(a) + PlatformNames(b)
    decreases |a|
  {
    if a == [] {
      assert a + b == b;
    } else {
      assert (a + b)[0] == a[0];
      assert (a + b)[1..] == a[1..] + b;
      PlatformNamesAppend(a[1..], b);
    }
  }

  /** Every span has a `class` attribute. */
  predicate AllClassed(spans: seq<Option<seq<string>>>) {
    forall i :: 0 <= i < |spans| ==> spans[i].Some?
  }

  function ClassLists(spans: seq<Option<seq<string>>>): (r: seq<seq<string>>)
    requires AllClassed(spans)
    ensures |r| == |spans| && forall i :: 0 <= i < |spans| ==> spans[i] == Some(r[i])
  {
    seq(|spans|, i requires 0 <= i < |spans| => spans[i].value)
  }

  /** `get_platforms`: the spans' class names other than `platform_img`, joined by
      `", "`; `"Unknown"` when the container is missing or a span has no class. */
  function GetPlatforms(page: ListingPage): (r: string)
    ensures page.platformSpans.None? || !AllClassed(page.platformSpans.value) ==> r == "Unknown"
    ensures page.platformSpans.Some? && AllClassed(page.platformSpans.value) ==>
      r == Join(PlatformNames(ClassLists(page.platformSpans.value)), ", ")
  {
    match page.platformSpans
    case None => "Unknown"
    case Some(spans) =>
      if AllClassed(spans) then Join(PlatformNames(ClassLists(spans)), ", ") else "Unknown"
  }

  /** When every span has a class, the result splits back into exactly the platform
      class names, none of them `platform_img`. */
  lemma PlatformsRoundTrip(page: ListingPage)
    requires page.platformSpans.Some? && AllClassed(page.platformSpans.value)
    requires var names := PlatformNames(ClassLists(page.platformSpans.value));
      |names| >= 1 && forall i :: 0 <= i < |names| ==> !Contains(names[i], ", ")
    ensures var names := PlatformNames(ClassLists(page.platformSpans.value));
      Split(GetPlatforms(page), ", ") == names && PlatformMarker !in Split(GetPlatforms(page), ", ")
  {
    SplitJoinComma(PlatformNames(ClassLists(page.platformSpans.value)));
  }

  // ---------------------------------------------------------------------------
  // Tags and DRM notices

  function StripAll(texts: seq<string>): (r: seq<string>)
    ensures |r| == |texts| && forall i :: 0 <= i < |texts| ==> r[i] == Strip(texts[i])
  {
    seq(|texts|, i requires 0 <= i < |texts| => Strip(texts[i]))
  }

  /** The stripped texts joined by `", "`; null when the container is missing or, by the
      `assert len(...) >= 1`, empty. */
  function JoinStripped(texts: Option<seq<string>>): (r: Value)
    ensures r == Null <==> texts.None? || texts.value == []
    ensures r != Null ==> r == Str(Join(StripAll(texts.value), ", "))
  {
    match texts
    case None => Null
    case Some(ts) => if ts == [] then Null else Str(Join(StripAll(ts), ", "))
  }

  /** The joined texts split back into the stripped texts, when none holds `", "`;
      each of them then has no surrounding whitespace. */
  lemma JoinStrippedRoundTrip(texts: seq<string>)
    requires |texts| >= 1 && forall i :: 0 <= i < |texts| ==> !Contains(Strip(texts[i]), ", ")
    ensures var parts := Split(JoinStripped(Some(texts)).s, ", ");
      parts == StripAll(texts) &&
      forall i :: 0 <= i < |parts| ==> parts[i] == [] || (!IsSpace(parts[i][0]) && !IsSpace(parts[i][|parts[i]| - 1]))
  {
    SplitJoinComma(StripAll(texts));
  }

  /** `get_user_defined_tags`. */
  function GetUserDefinedTags(page: ListingPage): (r: Value)
    ensures r == Null <==> page.popularTags.None? || page.popularTags.value == []
    ensures r != Null ==> r == Str(Join(StripAll(page.popularTags.value), ", "))
  {
    JoinStripped(page.popularTags)
  }

  /** `get_drm`. */
  function GetDrm(page: ListingPage): (r: Value)
    ensures r == Null <==> page.drmNotices.None? || page.drmNotices.value == []
    ensures r != Null ==> r == Str(Join(StripAll(page.drmNotices.value), ", "))
  {
    JoinStripped(page.drmNotices)
  }

  // ---------------------------------------------------------------------------
  // Rating and its descriptors

  /** `os.path.splitext(os.path.basename(url))[0]`. */
  function RatingName(url: string): (r: string)
    ensures '/' !in r
    ensures |r| <= |Basename(url)| && Basename(url)[..|r|] == r
  {
    var b := Basename(url);
    var parts := SplitExt(b);
    assert b == parts.0 + parts.1 && b[..|parts.0|] == parts.0;
    parts.0
  }

  /** `get_rating`: one key, the icon's file name without extension, or null. */
  function GetRating(page: ListingPage): (r: Record)
    ensures r.Keys == {"rating"}
    ensures r["rating"] == Null <==> page.ratingIconSrc.None?
    ensures r["rating"] != Null ==> r["rating"] == Str(RatingName(page.ratingIconSrc.value))
  {
    map["rating" := OptionalText(page.ratingIconSrc, RatingName)]
  }

  /** `Str(f(t))` for a text `t` that is present, null otherwise. */
  function OptionalText(t: Option<string>, f: string -> string): (v: Value)
    ensures v == Null <==> t.None?
    ensures v != Null ==> v == Str(f(t.value))
  {
    if t.Some? then Str(f(t.value)) else Null
  }

  /** An icon URL `dir/name.ext` rates as `name`, whatever dots `name` holds, unless it
      is all dots. */
  lemma RatingOfIconUrl(dir: string, name: string, ext: string)
    requires '/' !in name && !OnlyDots(name)
    requires |ext| > 0 && ext[0] == '.' && '.' !in ext[1..] && '/' !in ext
    ensures RatingName(dir + "/" + name + ext) == name
  {
    var b := name + ext;
    assert '/' !in b by {
      forall k | 0 <= k < |b|
        ensures b[k] != '/'
      {
        if k >= |name| { assert b[k] == ext[k - |name|]; }
      }
    }
    assert dir + "/" + name + ext == (dir + "/") + b;
    BasenameAfterSlash(dir + "/", b);
    SplitExtOfName(name, ext);
  }

  /** The descriptors text stripped, carriage returns removed and line breaks turned
      into `", "`. */
  function DescriptorsText(text: string): (r: string)
    ensures '\r' !in r && '\n' !in r
  {
    var noCr := Replace(Strip(text), "\r", "");
    ReplaceRemovesChar(Strip(text), '\r', "");
    ReplaceRemovesChar(noCr, '\n', ", ");
    ReplaceAvoids(noCr, "\n", ", ", '\r');
    Replace(noCr, "\n", ", ")
  }

  /** A descriptors text with no line break is only stripped. */
  lemma DescriptorsTextOfOneLine(text: string)
    requires '\r' !in text && '\n' !in text
    ensures DescriptorsText(text) == Strip(text)
  {
    StripAvoids(text, '\r');
    StripAvoids(text, '\n');
    ReplaceWithoutFirstChar(Strip(text), "\r", "");
    ReplaceWithoutFirstChar(Strip(text), "\n", ", ");
  }

  /** `get_rating_descriptors`: one key, the descriptors on one line, or null. */
  function GetRatingDescriptors(page: ListingPage): (r: Record)
    ensures r.Keys == {"rating_descriptors"}
    ensures r["rating_descriptors"] == Null <==> page.ratingDescriptors.None?
    ensures r["rating_descriptors"] != Null ==>
      r["rating_descriptors"].Str? && '\r' !in r["rating_descriptors"].s && '\n' !in r["rating_descriptors"].s
    ensures page.ratingDescriptors.Some? ==>
      r["rating_descriptors"] == Str(DescriptorsText(page.ratingDescriptors.value))
  {
    map["rating_descriptors" := OptionalText(page.ratingDescriptors, DescriptorsText)]
  }

  /** Descriptor lines separated by line breaks come back as those lines, joined by
      `", "`, and split back into them. */
  lemma DescriptorLinesRoundTrip(lines: seq<string>)
    requires |lines| >= 1
    requires forall i :: 0 <= i < |lines| ==> '\r' !in lines[i] && '\n' !in lines[i] && !Contains(lines[i], ", ")
    requires lines[0] != [] && !IsSpace(lines[0][0])
    requires var last := lines[|lines| - 1]; last != [] && !IsSpace(last[|last| - 1])
    ensures DescriptorsText(Join(lines, "\n")) == Join(lines, ", ")
    ensures Split(DescriptorsText(Join(lines, "\n")), ", ") == lines
  {
    var s := Join(lines, "\n");
    JoinEnds(lines, "\n");
    var last := lines[|lines| - 1];
    assert s[0] == s[..|lines[0]|][0] == lines[0][0];
    assert s[|s| - 1] == s[|s| - |last|..][|last| - 1] == last[|last| - 1];
    StripUnchanged(s);
    JoinAvoids(lines, "\n", '\r');
    ReplaceWithoutFirstChar(s, "\r", "");
    ReplaceJoinSeparator(lines, '\n', ", ");
    SplitJoinComma(lines);
  }

  /** Descriptor lines separated by `"\r\n"` come back the same as with `"\n"`: the
      carriage returns are dropped and the lines joined by `", "`. */
  lemma DescriptorCrLfLinesRoundTrip(lines: seq<string>)
    requires |lines| >= 1
    requires forall i :: 0 <= i < |lines| ==> '\r' !in lines[i] && '\n' !in lines[i] && !Contains(lines[i], ", ")
    requires lines[0] != [] && !IsSpace(lines[0][0])
    requires var last := lines[|lines| - 1]; last != [] && !IsSpace(last[|last| - 1])
    ensures DescriptorsText(Join(lines, "\r\n")) == Join(lines, ", ")
    ensures Split(DescriptorsText(Join(lines, "\r\n")), ", ") == lines
  {
    var s := Join(lines, "\r\n");
    JoinEnds(lines, "\r\n");
    var last := lines[|lines| - 1];
    assert s[0] == s[..|lines[0]|][0] == lines[0][0];
    assert s[|s| - 1] == s[|s| - |last|..][|last| - 1] == last[|last| - 1];
    StripUnchanged(s);
    assert "\r\n" == ['\r'] + "\n" && "" + "\n" == "\n";
    ReplaceJoinLeadingChar(lines, '\r', "\n", "");
    ReplaceJoinSeparator(lines, '\n', ", ");
    SplitJoinComma(lines);
  }

  // ---------------------------------------------------------------------------
  // System requirements

  /** Each `li` text stripped and put in brackets. */
  function Bracketed(items: seq<string>): (r: seq<string>)
    ensures |r| == |items| && forall i :: 0 <= i < |items| ==> r[i] == "[" + Strip(items[i]) + "]"
  {
    seq(|items|, i requires 0 <= i < |items| => "[" + Strip(items[i]) + "]")
  }

  /** The `li` texts of a requirements column, each stripped and put in brackets,
      joined by `", "`; `""` when the column is missing. */
  function RequirementList(items: Option<seq<string>>): (r: string)
    ensures items.None? || items.value == [] ==> r == ""
    ensures items.Some? ==> r == Join(Bracketed(items.value), ", ")
    ensures items.Some? && items.value != [] ==> r != "" && r[0] == '[' && r[|r| - 1] == ']'
  {
    match items
    case None => ""
    case Some(lis) =>
      var parts := Bracketed(lis);
      if lis != [] then
        JoinEnds(parts, ", ");
        var j := Join(parts, ", ");
        assert j[0] == j[..|parts[0]|][0];
        assert j[|j| - 1] == j[|j| - |parts[|parts| - 1]|..][|parts[|parts| - 1]| - 1];
        j
      else Join(parts, ", ")
  }

  /** A requirements list splits back into its bracketed items when no stripped item
      holds `", "`. */
  lemma RequirementListRoundTrip(items: seq<string>)
    requires |items| >= 1 && forall i :: 0 <= i < |items| ==> !Contains(Strip(items[i]), ", ")
    ensures Split(RequirementList(Some(items)), ", ") == Bracketed(items)
  {
    var parts := Bracketed(items);
    forall i | 0 <= i < |parts|
      ensures !Contains(parts[i], ", ")
    {
      BracketsAvoidComma(Strip(items[i]));
    }
    SplitJoinComma(parts);
  }

  lemma BracketsAvoidComma(x: string)
    requires !Contains(x, ", ")
    ensures !Contains("[" + x + "]", ", ")
  {
    forall k
      ensures !OccursAt("[" + x + "]", ", ", k)
    {
      if 0 < k && k + 2 <= |x| + 1 {
        assert !OccursAt(x, ", ", k - 1);
      }
      NoCommaInBracketsAt(x, k);
    }
  }

  lemma NoCommaInBracketsAt(x: string, k: int)
    requires 0 < k && k + 2 <= |x| + 1 ==> !OccursAt(x, ", ", k - 1)
    ensures !OccursAt("[" + x + "]", ", ", k)
  {
    var b := "[" + x + "]";
    BracketChars(x);
    if 0 <= k && k + 2 <= |b| {
      PairSlice(b, k);
      if 0 < k < |x| {
        PairSlice(x, k - 1);
      }
    }
  }

  lemma BracketChars(x: string)
    ensures var b := "[" + x + "]";
      |b| == |x| + 2 && b[0] == '[' && b[|x| + 1] == ']' &&
      forall i :: 0 <= i < |x| ==> b[i + 1] == x[i]
  {
  }

  lemma PairSlice(s: string, i: int)
    requires 0 <= i && i + 2 <= |s|
    ensures s[i..i + 2] == [s[i], s[i + 1]]
  {
  }

  /** `get_system_requirements` (not called by `scrape_game_listing`): for each of
      `win` and `mac`, the minimum and recommended lists when the page has that
      platform's section, `""` otherwise. The lists are read from the page's first
      requirements columns whatever the platform. */
  function GetSystemRequirements(page: ListingPage): (r: map<string, string>)
    ensures r.Keys == {"minimum_win", "recommended_win", "minimum_mac", "recommended_mac"}
    ensures "win" !in page.sysReqPlatforms ==> r["minimum_win"] == "" && r["recommended_win"] == ""
    ensures "mac" !in page.sysReqPlatforms ==> r["minimum_mac"] == "" && r["recommended_mac"] == ""
    ensures "win" in page.sysReqPlatforms ==>
      r["minimum_win"] == RequirementList(page.sysReqMinimum) &&
      r["recommended_win"] == RequirementList(page.sysReqRecommended)
    ensures "mac" in page.sysReqPlatforms ==>
      r["minimum_mac"] == RequirementList(page.sysReqMinimum) &&
      r["recommended_mac"] == RequirementList(page.sysReqRecommended)
  {
    var win := "win" in page.sysReqPlatforms;
    var mac := "mac" in page.sysReqPlatforms;
    map[
      "minimum_win" := if win then RequirementList(page.sysReqMinimum) else "",
      "recommended_win" := if win then RequirementList(page.sysReqRecommended) else "",
      "minimum_mac" := if mac then RequirementList(page.sysReqMinimum) else "",
      "recommended_mac" := if mac then RequirementList(page.sysReqRecommended) else ""
    ]
  }

  /** A page with both platform sections reports the same requirements for both. */
  lemma SystemRequirementsIgnorePlatform(page: ListingPage)
    requires "win" in page.sysReqPlatforms && "mac" in page.sysReqPlatforms
    ensures var r := GetSystemRequirements(page);
      r["minimum_win"] == r["minimum_mac"] && r["recommended_win"] == r["recommended_mac"]
  {
  }

  // ---------------------------------------------------------------------------
  // scrape_game_listing

  /** The keys of the dict literal at the start of `scrape_game_listing`, in order. */
  const BaseColumns: seq<string> := [
    "review_type_all", "overall_review_rating", "pct_overall", "pct_overall_threshold",
    "pct_overall_lang", "pct_overall_threshold_lang", "platforms", "user_defined_tags",
    "num_steam_achievements", "drm"
  ]

  /** The dict literal at the start of `scrape_game_listing`: each column holds the
      value the source's literal gives it. */
  function BaseInfo(page: ListingPage, score: ReviewScore, scoreLang: ReviewScore): (r: Record)
    ensures r.Keys == Columns(BaseColumns)
    ensures forall k :: k in r ==> r[k] == BaseValue(page, score, scoreLang, k)
  {
    map k | k in BaseColumns :: BaseValue(page, score, scoreLang, k)
  }

  /** The value the dict literal gives a base column: the accessor the source calls for
      that column, or the percentage pair's part. */
  function BaseValue(page: ListingPage, score: ReviewScore, scoreLang: ReviewScore, column: string): (v: Value)
    ensures column == "review_type_all" ==> v == GetAllReviewsCount(page)
    ensures column == "overall_review_rating" ==> v == GetOverallReviewRating(page)
    ensures column == "pct_overall" ==> v == score.pct
    ensures column == "pct_overall_threshold" ==> v == score.threshold
    ensures column == "pct_overall_lang" ==> v == scoreLang.pct
    ensures column == "pct_overall_threshold_lang" ==> v == scoreLang.threshold
    ensures column == "platforms" ==> v == Str(GetPlatforms(page))
    ensures column == "user_defined_tags" ==> v == GetUserDefinedTags(page)
    ensures column == "num_steam_achievements" ==> v == GetSteamAchievements(page)
    ensures column == "drm" ==> v == GetDrm(page)
    ensures column !in BaseColumns ==> v == Null
  {
    if column == "review_type_all" then GetAllReviewsCount(page)
    else if column == "overall_review_rating" then GetOverallReviewRating(page)
    else if column == "pct_overall" then score.pct
    else if column == "pct_overall_threshold" then score.threshold
    else if column == "pct_overall_lang" then scoreLang.pct
    else if column == "pct_overall_threshold_lang" then scoreLang.threshold
    else if column == "platforms" then Str(GetPlatforms(page))
    else if column == "user_defined_tags" then GetUserDefinedTags(page)
    else if column == "num_steam_achievements" then GetSteamAchievements(page)
    else if column == "drm" then GetDrm(page)
    else Null
  }

  /** `scrape_game_listing`: raises when either percentage accessor, the release details
      or the languages raise; otherwise returns a record with exactly the columns of the
      listing failure record, whose languages are always text. */
  function ScrapeGameListing(page: ListingPage): (r: Result<Record, ListingError>)
    ensures r.Err? <==>
      ScoreFromTooltip(OverallTooltip(page)).Err? || ScoreFromTooltip(FilteredTooltip(page)).Err? ||
      page.detailsBlock.None? || page.languageNames.None?
    ensures r.Ok? ==> r.value.Keys == FailureRecords.ListingFailureRecord().Keys
    ensures r.Ok? ==> "languages" in r.value && r.value["languages"] == Str(Join(page.languageNames.value, ", "))
    ensures r.Ok? ==> "num_languages" in r.value && r.value["num_languages"] == Int(|page.languageNames.value|)
  {
    var score :- ScoreFromTooltip(OverallTooltip(page));
    var scoreLang :- ScoreFromTooltip(FilteredTooltip(page));
    var rated := RatedInfo(page, score, scoreLang);
    var r := Assemble(page, rated);
    ListingColumnsByGroup();
    AssembledKeyGroups(rated.Keys, if r.Ok? then r.value.Keys else {});
    r
  }

  /** A scraped record keeps the values of the dict literal and of the rating columns: the
      accessors called after them never write those columns. */
  lemma ScrapeGameListingKeepsRated(page: ListingPage)
    ensures var r := ScrapeGameListing(page);
      r.Ok? ==>
        var score := ScoreFromTooltip(OverallTooltip(page));
        var scoreLang := ScoreFromTooltip(FilteredTooltip(page));
        score.Ok? && scoreLang.Ok? &&
        (forall k :: k in BaseColumns ==> k in r.value && r.value[k] == BaseValue(page, score.value, scoreLang.value, k)) &&
        "rating" in r.value && r.value["rating"] == GetRating(page)["rating"] &&
        "rating_descriptors" in r.value &&
        r.value["rating_descriptors"] == GetRatingDescriptors(page)["rating_descriptors"]
  {
    var score := ScoreFromTooltip(OverallTooltip(page));
    var scoreLang := ScoreFromTooltip(FilteredTooltip(page));
    if score.Ok? && scoreLang.Ok? {
      var rated := RatedInfo(page, score.value, scoreLang.value);
      assert ScrapeGameListing(page) == Assemble(page, rated);
      AssembleKeepsRated(page, rated);
    }
  }

  /** A scraped record holds the review counts of `get_sub_review_counts` and the release
      fields of `get_release_summary_details`; with the lemma above and the languages of
      `ScrapeGameListing`, every column of a scraped record has a stated value. */
  lemma ScrapeGameListingSetsGroups(page: ListingPage)
    ensures var r := ScrapeGameListing(page);
      r.Ok? ==>
        (forall k :: k in SubReviewTypes ==> k in r.value && r.value[k] == ReviewCount(page, k)) &&
        (forall f :: f in ReleaseFields ==>
          f in r.value && r.value[f] == ReleaseField(NormalizeDetails(page.detailsBlock.value), f))
  {
    var score := ScoreFromTooltip(OverallTooltip(page));
    var scoreLang := ScoreFromTooltip(FilteredTooltip(page));
    if score.Ok? && scoreLang.Ok? {
      var rated := RatedInfo(page, score.value, scoreLang.value);
      assert ScrapeGameListing(page) == Assemble(page, rated);
    }
  }

  /** `Assemble` leaves every base and rating column of `info` as it was. */
  lemma AssembleKeepsRated(page: ListingPage, info: Record)
    ensures var r := Assemble(page, info);
      r.Ok? ==>
        (forall k :: k in BaseColumns && k in info ==> k in r.value && r.value[k] == info[k]) &&
        (forall k :: k in RatingColumns && k in info ==> k in r.value && r.value[k] == info[k])
  {
    RatedColumnsNotAssembled();
  }

  /** No base or rating column is written by the review counts, release details or languages. */
  lemma RatedColumnsNotAssembled()
    ensures forall k :: k in BaseColumns ==>
      k !in SubReviewTypes && k !in ReleaseFields && k != "languages" && k != "num_languages"
    ensures forall k :: k in RatingColumns ==>
      k !in SubReviewTypes && k !in ReleaseFields && k != "languages" && k != "num_languages"
  { }

  /** The last three calls of `scrape_game_listing`: the review counts, release details and languages added to `info`. */
  function Assemble(page: ListingPage, info: Record): (r: Result<Record, ListingError>)
    ensures r.Err? <==> page.detailsBlock.None? || page.languageNames.None?
    ensures r.Ok? ==>
      r.value.Keys == info.Keys + Columns(SubReviewTypes) + Columns(ReleaseFields) + {"languages", "num_languages"}
    ensures r.Ok? ==> r.value["languages"] == Str(Join(page.languageNames.value, ", "))
    ensures r.Ok? ==> r.value["num_languages"] == Int(|page.languageNames.value|)
    ensures r.Ok? ==> forall k ::
      (k in info && k !in SubReviewTypes && k !in ReleaseFields && k != "languages" && k != "num_languages")
        ==> r.value[k] == info[k]
    ensures r.Ok? ==> forall k :: k in SubReviewTypes ==> k in r.value && r.value[k] == ReviewCount(page, k)
    ensures r.Ok? ==> forall f :: f in ReleaseFields ==>
      f in r.value && r.value[f] == ReleaseField(NormalizeDetails(page.detailsBlock.value), f)
  {
    AssembledGroupsDisjoint();
    AddDetails(page, GetSubReviewCounts(page, info))
  }

  /** The last two calls of `scrape_game_listing`: the release details, then the languages. */
  function AddDetails(page: ListingPage, info: Record): (r: Result<Record, ListingError>)
    ensures r.Err? <==> page.detailsBlock.None? || page.languageNames.None?
    ensures r.Ok? ==> r.value.Keys == info.Keys + Columns(ReleaseFields) + {"languages", "num_languages"}
    ensures r.Ok? ==> r.value["languages"] == Str(Join(page.languageNames.value, ", "))
    ensures r.Ok? ==> r.value["num_languages"] == Int(|page.languageNames.value|)
    ensures r.Ok? ==> forall k ::
      (k in info && k !in ReleaseFields && k != "languages" && k != "num_languages")
        ==> r.value[k] == info[k]
    ensures r.Ok? ==> forall f :: f in ReleaseFields ==>
      f in r.value && r.value[f] == ReleaseField(NormalizeDetails(page.detailsBlock.value), f)
  {
    AssembledGroupsDisjoint();
    var info :- GetReleaseSummaryDetails(page, info);
    GetLanguages(page, info)
  }

  /** The review counts, release fields and language columns are three disjoint groups,
      so no later call overwrites an earlier one. */
  lemma AssembledGroupsDisjoint()
    ensures forall k :: k in SubReviewTypes ==> k !in ReleaseFields && k != "languages" && k != "num_languages"
    ensures forall f :: f in ReleaseFields ==> f != "languages" && f != "num_languages"
  { }

  /** The dict literal of `scrape_game_listing` updated with the rating and its descriptors. */
  function RatedInfo(page: ListingPage, score: ReviewScore, scoreLang: ReviewScore): (r: Record)
    ensures r.Keys == Columns(BaseColumns) + Columns(RatingColumns)
    ensures forall k :: k in BaseColumns ==> k in r && r[k] == BaseValue(page, score, scoreLang, k)
    ensures "rating" in r && r["rating"] == GetRating(page)["rating"]
    ensures "rating_descriptors" in r && r["rating_descriptors"] == GetRatingDescriptors(page)["rating_descriptors"]
  {
    RatingColumnsNotBase();
    BaseInfo(page, score, scoreLang) + GetRating(page) + GetRatingDescriptors(page)
  }

  /** The rating columns are disjoint from the base columns, so adding them keeps the base values. */
  lemma RatingColumnsNotBase()
    ensures Columns(RatingColumns) == {"rating", "rating_descriptors"}
    ensures "rating" !in BaseColumns && "rating_descriptors" !in BaseColumns
  { }

  /** The key set of the rated dict after the review counts, release details and
      languages are added, group by group. */
  lemma AssembledKeyGroups(rated: set<string>, assembled: set<string>)
    requires rated == Columns(BaseColumns) + Columns(RatingColumns)
    requires assembled == {} ||
      assembled == rated + Columns(SubReviewTypes) + Columns(ReleaseFields) + {"languages", "num_languages"}
    ensures assembled == {} || assembled == ColumnGroups()
  {
    assert Columns(LanguageColumns) == {"languages", "num_languages"};
  }

  const RatingColumns: seq<string> := ["rating", "rating_descriptors"]
  const LanguageColumns: seq<string> := ["languages", "num_languages"]

  /** The columns the accessors set, group by group. */
  function ColumnGroups(): set<string> {
    Columns(BaseColumns) + Columns(RatingColumns) + Columns(SubReviewTypes) +
    Columns(ReleaseFields) + Columns(LanguageColumns)
  }

  /** The listing failure schema is the union of the column groups the accessors set. */
  lemma ListingColumnsByGroup()
    ensures FailureRecords.ListingFailureRecord().Keys == ColumnGroups()
  {
    var c := FailureRecords.ListingColumns;
    FiveSlices(c, 10, 12, 14, 17);
    ListingColumnsSlices();
    ColumnsOfFive(c, BaseColumns, RatingColumns, LanguageColumns, SubReviewTypes, ReleaseFields);
  }

  lemma ListingColumnsSlices()
    ensures FailureRecords.ListingColumns[..10] == BaseColumns
    ensures FailureRecords.ListingColumns[10..12] == RatingColumns
    ensures FailureRecords.ListingColumns[12..14] == LanguageColumns
    ensures FailureRecords.ListingColumns[14..17] == SubReviewTypes
    ensures FailureRecords.ListingColumns[17..] == ReleaseFields
  {
  }

  lemma FiveSlices<T>(c: seq<T>, i: nat, j: nat, k: nat, l: nat)
    requires i <= j <= k <= l <= |c|
    ensures c == c[..i] + c[i..j] + c[j..k] + c[k..l] + c[l..]
  {
  }

  lemma ColumnsOfFive(c: seq<string>, a: seq<string>, b: seq<string>, d: seq<string>, e: seq<string>, f: seq<string>)
    requires c == a + b + d + e + f
    ensures Columns(c) == Columns(a) + Columns(b) + Columns(d) + Columns(e) + Columns(f)
  {
    ColumnsAppend(a + b + d + e, f);
    ColumnsAppend(a + b + d, e);
    ColumnsAppend(a + b, d);
    ColumnsAppend(a, b);
  }
}
