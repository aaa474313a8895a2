/** The record-level part of `src/page_scrapers.py`: a listing whose scrape raises is
    written as the listing failure record, and every written row gets the page and the
    listing number as two more columns. */
module PageScrapers {
  import opened Records
  import FailureRecords
  import Bs4Helpers

  /** The `try` around `scrape_game_listing` in `scrape_listing`: the scraped record, or the failure record when scraping raises.
      Either way the row has the failure schema's columns, and it is all null exactly when
      scraping raised: a scraped record always holds the languages as text. */
  function ListingDetails(page: Bs4Helpers.ListingPage): (r: Record)
    ensures r.Keys == FailureRecords.ListingFailureRecord().Keys
    ensures Bs4Helpers.ScrapeGameListing(page).Ok? ==> r == Bs4Helpers.ScrapeGameListing(page).value
    ensures AllNull(r) <==> Bs4Helpers.ScrapeGameListing(page).Err?
  {
    match Bs4Helpers.ScrapeGameListing(page)
    case Ok(details) => details
    case Err(_) => FailureRecords.ListingFailureRecord()
  }

  /** The two `assign` calls of `scrape_listing`: the details with `page_num` and `listing_num` assigned. Neither is a
      column of the details, so the row has 26 columns and every detail keeps its
      value. */
  function ListingRow(page: Bs4Helpers.ListingPage, pageNum: int, listingNum: int): (r: Record)
    ensures |r| == 26
    ensures r.Keys == ListingDetails(page).Keys + {"page_num", "listing_num"}
    ensures r["page_num"] == Int(pageNum) && r["listing_num"] == Int(listingNum)
    ensures forall k :: k in ListingDetails(page) ==> r[k] == ListingDetails(page)[k]
  {
    var details := ListingDetails(page);
    assert |details| == |details.Keys| == 24;
    WithRowIndex(details, pageNum, listingNum)
  }

  /** `DataFrame.assign(page_num=...).assign(listing_num=...)` on a one-row frame. */
  function WithRowIndex(details: Record, pageNum: int, listingNum: int): (r: Record)
    ensures r.Keys == details.Keys + {"page_num", "listing_num"}
    ensures r["page_num"] == Int(pageNum) && r["listing_num"] == Int(listingNum)
    ensures "page_num" !in details && "listing_num" !in details ==>
      |r| == |details| + 2 && forall k :: k in details ==> r[k] == details[k]
  {
    details["page_num" := Int(pageNum)]["listing_num" := Int(listingNum)]
  }
}
