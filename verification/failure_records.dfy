/** `src/failure_records.py`: the all-null rows used when a whole extraction fails. */
module FailureRecords {
  import opened Records

  /** The keys of `dict_failed_extraction_from_search_results()`, in source order. */
  const SearchResultsColumns: seq<string> := [
    "page_num", "app_id_listing", "url_listing", "title_listing", "release_date_listing",
    "price_listing", "sale_listing", "overall_listing", "threshold_pct_listing",
    "num_reviews_listing"
  ]

  /** The keys of `dict_failed_extraction_from_listing_page()`, in source order. */
  const ListingColumns: seq<string> := [
    "review_type_all", "overall_review_rating", "pct_overall", "pct_overall_threshold",
    "pct_overall_lang", "pct_overall_threshold_lang", "platforms", "user_defined_tags",
    "num_steam_achievements", "drm", "rating", "rating_descriptors", "languages",
    "num_languages", "review_type_positive", "review_type_negative", "review_language_mine",
    "Title", "Genre", "Release Date", "Early Access Release Date", "Developer", "Publisher",
    "Franchise"
  ]

  /** `dict_failed_extraction_from_search_results()`: ten columns, all null. */
  function SearchResultsFailureRecord(): (r: Record)
    ensures r.Keys == Columns(SearchResultsColumns)
    ensures |r| == 10 && AllNull(r)
    ensures "page_num" in r && "title_listing" in r && "num_reviews_listing" in r
  {
    SearchResultsColumnCount();
    NullRecord(SearchResultsColumns)
  }

  /** `dict_failed_extraction_from_listing_page()`: twenty-four columns, all null, and
      neither of the `page_num` and `listing_num` columns a scraped row gets appended. */
  function ListingFailureRecord(): (r: Record)
    ensures r.Keys == Columns(ListingColumns)
    ensures |r| == 24 && AllNull(r)
    ensures "page_num" !in r && "listing_num" !in r
  {
    ListingColumnCount();
    ListingColumnsLeaveOutRowIndex();
    NullRecord(ListingColumns)
  }

  lemma SearchResultsColumnsDistinct()
    ensures Distinct(SearchResultsColumns)
  {
  }

  lemma SearchResultsColumnCount()
    ensures |Columns(SearchResultsColumns)| == 10
  {
    SearchResultsColumnsDistinct();
    DistinctColumnCount(SearchResultsColumns);
  }

  lemma ListingColumnsDistinct()
    ensures Distinct(ListingColumns)
  {
    ListingColumnsDistinctA();
    ListingColumnsDistinctB();
    ListingColumnsDistinctC();
    ListingColumnsDistinctD();
    DistinctFromEach(ListingColumns);
  }

  lemma ListingColumnsDistinctA()
    ensures forall i :: 0 <= i < 4 ==> DistinctFrom(ListingColumns, i)
  {
  }

  lemma ListingColumnsDistinctB()
    ensures forall i :: 4 <= i < 9 ==> DistinctFrom(ListingColumns, i)
  {
  }

  lemma ListingColumnsDistinctC()
    ensures forall i :: 9 <= i < 15 ==> DistinctFrom(ListingColumns, i)
  {
  }

  lemma ListingColumnsDistinctD()
    ensures forall i :: 15 <= i < 24 ==> DistinctFrom(ListingColumns, i)
  {
  }

  lemma ListingColumnCount()
    ensures |Columns(ListingColumns)| == 24
  {
    ListingColumnsDistinct();
    DistinctColumnCount(ListingColumns);
  }

  lemma ListingColumnsLeaveOutRowIndex()
    ensures "page_num" !in ListingColumns && "listing_num" !in ListingColumns
  {
  }

  /** No column of the search-results schema is a column of the listing schema. */
  lemma FailureSchemasDisjoint()
    ensures SearchResultsFailureRecord().Keys !! ListingFailureRecord().Keys
  {
    SearchColumnsNotListingA();
    SearchColumnsNotListingB();
    assert forall k :: k in SearchResultsFailureRecord() ==> k !in ListingColumns;
  }

  lemma SearchColumnsNotListingA()
    ensures forall i :: 0 <= i < 5 ==> SearchResultsColumns[i] !in ListingColumns
  {
  }

  lemma SearchColumnsNotListingB()
    ensures forall i :: 5 <= i < 10 ==> SearchResultsColumns[i] !in ListingColumns
  {
  }
}
