/** `src/page_helpers.py`: reading the search-results pagination control. The control
    is given as the text of its left box ("Showing 26 - 50 of 125") and the labels of
    the links in its right box ("<", "1", "2", ..., ">"). */
module PageHelpers {
  import opened Maybe
  import opened PyText

  /** Listings shown on one search-results page. */
  const ListingsPerPage: int := 25

  /** The exceptions `get_pages` lets escape. */
  datatype PageError =
    | NoTotalToken                     // `text.split()[-1]` of a text with no word
    | TotalNotInteger(token: string)   // `int(...)` of the last word
    | NoShowingRange                   // `max([])` when the box shows fewer than two numbers
    | PageLinkNotInteger(linkText: string) // `int(...)` of a link label other than "<" and ">"
    | NoPageNumbersToShow              // `max([])` in the verbose message

  // ---------------------------------------------------------------------------
  // Total listings and the maximum page

  /** `math.ceil(n / 25)`: the page that listing number `n` falls on, and the number of
      pages `n` listings fill. */
  function PageOf(n: int): (p: int)
    ensures ListingsPerPage * (p - 1) < n <= ListingsPerPage * p
  {
    (n + ListingsPerPage - 1) / ListingsPerPage
  }

  /** `int(text.split()[-1])`: the last word of the left box, as an integer. */
  function TotalListings(leftText: string): Result<int, PageError> {
    match At(Words(leftText), -1)
    case None => Err(NoTotalToken)
    case Some(last) =>
      match ParseInt(last)
      case None => Err(TotalNotInteger(last))
      case Some(n) => Ok(n)
  }

  /** `max_page_listings`: enough pages for all listings, and no more. */
  function MaxPage(totalListings: int): (m: int)
    ensures ListingsPerPage * (m - 1) < totalListings <= ListingsPerPage * m
  {
    PageOf(totalListings)
  }

  // ---------------------------------------------------------------------------
  // The current page

  /** `list(map(int, re.findall(r"\d+", text)))[:-1]`: every number in the left box but
      the last one. */
  function ShowingListings(leftText: string): (r: seq<nat>)
    ensures |DigitRuns(leftText)| == 0 ==> r == []
    ensures |DigitRuns(leftText)| > 0 ==> |r| == |DigitRuns(leftText)| - 1
    ensures forall i :: 0 <= i < |r| ==> AllDigits(DigitRuns(leftText)[i]) && r[i] == DecimalValue(DigitRuns(leftText)[i])
  {
    var runs := DigitRuns(leftText);
    RunsAreRuns(leftText, IsAsciiDigit);
    if |runs| == 0 then []
    else seq(|runs| - 1, i requires 0 <= i < |runs| - 1 => DecimalValue(runs[i]))
  }

  /** `[int(x / 25) for x in showing]`, as the source writes it: truncating division. */
  function TruncatedPageList(showing: seq<nat>): (q: seq<nat>)
    ensures |q| == |showing|
    ensures forall i :: 0 <= i < |q| ==> ListingsPerPage * q[i] <= showing[i] < ListingsPerPage * (q[i] + 1)
  {
    seq(|showing|, i requires 0 <= i < |showing| => showing[i] / ListingsPerPage)
  }

  /** `[math.ceil(x / 25) for x in showing]`: the page each shown listing number is on. */
  function PageList(showing: seq<nat>): (q: seq<nat>)
    ensures |q| == |showing|
    ensures forall i :: 0 <= i < |q| ==> ListingsPerPage * (q[i] as int - 1) < showing[i] <= ListingsPerPage * q[i]
  {
    seq(|showing|, i requires 0 <= i < |showing| => PageOf(showing[i]))
  }

  function SeqMax(xs: seq<nat>): (m: nat)
    requires |xs| > 0
    ensures m in xs && forall i :: 0 <= i < |xs| ==> xs[i] <= m
  {
    if |xs| == 1 then xs[0]
    else
      var m := SeqMax(xs[1..]);
      if xs[0] >= m then xs[0] else m
  }

  /** Page 1 when the list holds a 0, otherwise its largest entry; `max([])` raises. */
  function PickCurrentPage(pageList: seq<nat>): (r: Result<nat, PageError>)
    ensures r.Err? <==> |pageList| == 0
    ensures r.Ok? && 0 in pageList ==> r.value == 1
    ensures r.Ok? && 0 !in pageList ==> r.value in pageList && forall i :: 0 <= i < |pageList| ==> pageList[i] <= r.value
  {
    if 0 in pageList then Ok(1)
    else if |pageList| == 0 then Err(NoShowingRange)
    else Ok(SeqMax(pageList))
  }

  /** The current page as the source computes it: 1 when some shown number is below 25,
      otherwise the largest truncated quotient. */
  function CurrentPageAsWritten(showing: seq<nat>): (r: Result<nat, PageError>)
    ensures r.Err? <==> |showing| == 0
    ensures r.Ok? && (exists i :: 0 <= i < |showing| && showing[i] < ListingsPerPage) ==> r.value == 1
    ensures r.Ok? && (forall i :: 0 <= i < |showing| ==> showing[i] >= ListingsPerPage) ==>
              && (exists i :: 0 <= i < |showing| && r.value == showing[i] / ListingsPerPage)
              && (forall i :: 0 <= i < |showing| ==> showing[i] / ListingsPerPage <= r.value)
  {
    var q := TruncatedPageList(showing);
    assert forall i :: 0 <= i < |showing| ==> q[i] == showing[i] / ListingsPerPage;
    assert (exists i :: 0 <= i < |showing| && showing[i] < ListingsPerPage) ==> 0 in q;
    PickCurrentPage(q)
  }

  /** The current page with the quotient rounded up: 1 when the box shows a 0, otherwise
      the page of the largest shown listing number. */
  function CurrentPage(showing: seq<nat>): (r: Result<nat, PageError>)
    ensures r.Err? <==> |showing| == 0
    ensures r.Ok? && 0 in showing ==> r.value == 1
    ensures r.Ok? && 0 !in showing ==>
              && (exists i :: 0 <= i < |showing| && ListingsPerPage * (r.value as int - 1) < showing[i] <= ListingsPerPage * r.value)
              && (forall i :: 0 <= i < |showing| ==> showing[i] <= ListingsPerPage * r.value)
  {
    var q := PageList(showing);
    assert 0 in showing <==> 0 in q by {
      assert forall i :: 0 <= i < |showing| ==> (showing[i] == 0 <==> q[i] == 0);
    }
    var r := PickCurrentPage(q);
    assert r.Ok? && 0 !in showing ==> forall i :: 0 <= i < |showing| ==> showing[i] <= ListingsPerPage * r.value by {
      if r.Ok? && 0 !in showing {
        forall i | 0 <= i < |showing|
          ensures showing[i] <= ListingsPerPage * r.value
        {
          assert q[i] <= r.value;
        }
      }
    }
    r
  }

  /** On a page of consecutive listings `first..last`, the current page is the page those
      listings sit on. */
  lemma CurrentPageIsShownPage(first: nat, last: nat)
    requires 1 <= first <= last && PageOf(first) == PageOf(last)
    ensures CurrentPage([first, last]) == Ok(PageOf(last))
  {
    var r := CurrentPage([first, last]);
    assert 0 !in [first, last];
    var p := r.value;
    assert ListingsPerPage * (PageOf(last) - 1) < last <= ListingsPerPage * PageOf(last);
    assert last <= ListingsPerPage * p;
    assert first > ListingsPerPage * (p as int - 1) || last > ListingsPerPage * (p as int - 1);
  }

  /** The source's current page is one short on a partly filled last page: the box
      "Showing 101 - 110 of 110" is page 5 of 5, and the source reports page 4. */
  lemma CurrentPageAsWrittenMissesPartialPage()
    ensures PageOf(101) == 5 && PageOf(110) == 5 && MaxPage(110) == 5
    ensures CurrentPageAsWritten([101, 110]) == Ok(4)
    ensures CurrentPage([101, 110]) == Ok(5)
  {
    CurrentPageIsShownPage(101, 110);
  }

  // ---------------------------------------------------------------------------
  // The navigable pages

  predicate IsArrow(linkText: string) {
    linkText == "<" || linkText == ">"
  }

  /** `p` is the number of some link other than the arrows. */
  ghost predicate IsLinkPage(links: seq<string>, p: int) {
    exists i :: 0 <= i < |links| && LinkNumberAt(links, i, p)
  }

  ghost predicate LinkNumberAt(links: seq<string>, i: int, p: int)
    requires 0 <= i < |links|
  {
    !IsArrow(links[i]) && ParseInt(links[i]) == Some(p)
  }

  /** Some link other than the arrows is not a number. */
  ghost predicate HasBadLink(links: seq<string>) {
    exists i :: 0 <= i < |links| && BadLinkAt(links, i)
  }

  ghost predicate BadLinkAt(links: seq<string>, i: int)
    requires 0 <= i < |links|
  {
    !IsArrow(links[i]) && ParseInt(links[i]).None?
  }

  lemma LinkFactsCons(links: seq<string>)
    requires |links| > 0
    ensures forall p :: IsLinkPage(links, p) <==> LinkNumberAt(links, 0, p) || IsLinkPage(links[1..], p)
    ensures HasBadLink(links) <==> BadLinkAt(links, 0) || HasBadLink(links[1..])
  {
    forall p
      ensures IsLinkPage(links, p) <==> LinkNumberAt(links, 0, p) || IsLinkPage(links[1..], p)
    {
      LinkPageCons(links, p);
    }
    BadLinkCons(links);
  }

  lemma LinkPageCons(links: seq<string>, p: int)
    requires |links| > 0
    ensures IsLinkPage(links, p) <==> LinkNumberAt(links, 0, p) || IsLinkPage(links[1..], p)
  {
    var tail := links[1..];
    if IsLinkPage(tail, p) {
      var i :| 0 <= i < |tail| && LinkNumberAt(tail, i, p);
      assert tail[i] == links[i + 1];
      assert LinkNumberAt(links, i + 1, p);
    }
    if IsLinkPage(links, p) && !LinkNumberAt(links, 0, p) {
      var i :| 0 <= i < |links| && LinkNumberAt(links, i, p);
      assert i > 0 && tail[i - 1] == links[i];
      assert LinkNumberAt(tail, i - 1, p);
    }
  }

  lemma BadLinkCons(links: seq<string>)
    requires |links| > 0
    ensures HasBadLink(links) <==> BadLinkAt(links, 0) || HasBadLink(links[1..])
  {
    var tail := links[1..];
    if HasBadLink(tail) {
      var i :| 0 <= i < |tail| && BadLinkAt(tail, i);
      assert tail[i] == links[i + 1];
      assert BadLinkAt(links, i + 1);
    }
    if HasBadLink(links) && !BadLinkAt(links, 0) {
      var i :| 0 <= i < |links| && BadLinkAt(links, i);
      assert i > 0 && tail[i - 1] == links[i];
      assert BadLinkAt(tail, i - 1);
    }
  }

  /** The link loop of `get_pages`: the numbers of the links other than "<" and ">", in order; `int(...)`
      of any other label that is not a number raises. */
  function LinkPages(links: seq<string>): (r: Result<seq<int>, PageError>)
    ensures r.Err? <==> HasBadLink(links)
    ensures r.Ok? ==> forall p :: p in r.value <==> IsLinkPage(links, p)
    decreases |links|
  {
    if |links| == 0 then Ok([])
    else
      LinkFactsCons(links);
      var rest := LinkPages(links[1..]);
      if IsArrow(links[0]) then rest
      else
        match ParseInt(links[0])
        case None => Err(PageLinkNotInteger(links[0]))
        case Some(p) =>
          if rest.Err? then Err(rest.error)
          else Ok([p] + rest.value)
  }

  ghost predicate StrictlyIncreasing(xs: seq<int>) {
    forall i, j :: 0 <= i < j < |xs| ==> xs[i] < xs[j]
  }

  /** Inserts `x` into a strictly increasing list, unless it is there already. */
  function Insert(xs: seq<int>, x: int): (r: seq<int>)
    requires StrictlyIncreasing(xs)
    ensures StrictlyIncreasing(r)
    ensures forall y :: y in r <==> y in xs || y == x
  {
    if xs == [] then [x]
    else if x < xs[0] then [x] + xs
    else if x == xs[0] then xs
    else
      var rest := Insert(xs[1..], x);
      assert forall y :: y in xs[1..] ==> xs[0] < y;
      assert forall y :: y in rest ==> xs[0] < y;
      var r := [xs[0]] + rest;
      assert forall i :: 0 < i < |r| ==> r[i] == rest[i - 1] && rest[i - 1] in rest;
      r
  }

  /** `sorted(set(xs))`. */
  function SortedSet(xs: seq<int>): (r: seq<int>)
    ensures StrictlyIncreasing(r)
    ensures forall y :: y in r <==> y in xs
  {
    if xs == [] then []
    else
      var r := Insert(SortedSet(xs[..|xs| - 1]), xs[|xs| - 1]);
      assert xs == xs[..|xs| - 1] + [xs[|xs| - 1]];
      r
  }

  /** Removing a value from a strictly increasing list, as `set(...) - set([v])` does
      before the sort, leaves it strictly increasing. */
  lemma {:induction false} WithoutIncreasing(xs: seq<int>, v: int)
    requires StrictlyIncreasing(xs)
    ensures StrictlyIncreasing(Without(xs, v))
    decreases |xs|
  {
    if xs != [] {
      var rest := Without(xs[1..], v);
      WithoutIncreasing(xs[1..], v);
      if xs[0] == v {
        assert Without(xs, v) == [] + rest;
      } else {
        assert Without(xs, v) == [xs[0]] + rest;
        forall y | y in rest
          ensures xs[0] < y
        {
          var k :| 0 <= k < |xs| - 1 && xs[1..][k] == y;
          assert xs[0] < xs[k + 1];
        }
        ConsIncreasing(xs[0], rest);
      }
    }
  }

  /** A value below every item of a strictly increasing list can go in front of it. */
  lemma ConsIncreasing(a: int, rest: seq<int>)
    requires StrictlyIncreasing(rest)
    requires forall y :: y in rest ==> a < y
    ensures StrictlyIncreasing([a] + rest)
  {
    var r := [a] + rest;
    forall i, j | 0 <= i < j < |r|
      ensures r[i] < r[j]
    {
      assert r[j] == rest[j - 1] && rest[j - 1] in rest;
      if i > 0 {
        assert r[i] == rest[i - 1];
      }
    }
  }

  /** What `get_pages` returns: the current page, the per-number page list it was chosen
      from, and the navigable pages. */
  datatype Pages = Pages(currentPage: nat, currPageList: seq<nat>, allPageNums: seq<int>)

  /** `get_pages`. The navigable pages are sorted without repeats, and are exactly the
      numbered links and the current page, less the maximum page. With `verbose` the
      source prints `max(all_page_nums)`, which raises when that list is empty. */
  function GetPages(leftText: string, linkTexts: seq<string>, verbose: bool): (r: Result<Pages, PageError>)
    ensures r.Ok? ==> TotalListings(leftText).Ok?
    ensures r.Ok? ==> CurrentPage(ShowingListings(leftText)) == Ok(r.value.currentPage)
    ensures r.Ok? ==> StrictlyIncreasing(r.value.allPageNums)
    ensures r.Ok? ==> forall p :: p in r.value.allPageNums <==>
              && p != MaxPage(TotalListings(leftText).value)
              && (p == r.value.currentPage || IsLinkPage(linkTexts, p))
    ensures !verbose ==> (r.Err? <==> || TotalListings(leftText).Err?
                                      || |ShowingListings(leftText)| == 0
                                      || LinkPages(linkTexts).Err?)
    ensures verbose && r.Ok? ==> |r.value.allPageNums| > 0
    ensures r.Ok? ==> |r.value.currPageList| == |ShowingListings(leftText)|
    ensures r.Ok? ==> forall i :: 0 <= i < |r.value.currPageList| ==>
              ListingsPerPage * (r.value.currPageList[i] as int - 1) < ShowingListings(leftText)[i]
                <= ListingsPerPage * r.value.currPageList[i]
  {
    var total :- TotalListings(leftText);
    var maxPage := MaxPage(total);
    var showing := ShowingListings(leftText);
    var current :- CurrentPage(showing);
    var links :- LinkPages(linkTexts);
    var all := Without(SortedSet(links + [current]), maxPage);
    WithoutIncreasing(SortedSet(links + [current]), maxPage);
    if verbose && |all| == 0 then Err(NoPageNumbersToShow)
    else Ok(Pages(current, PageList(showing), all))
  }

  /** With `verbose`, `get_pages` returns what it returns without, except that the
      `max()` of its message raises when there are no navigable pages. */
  lemma GetPagesVerbose(leftText: string, linkTexts: seq<string>)
    ensures var quiet := GetPages(leftText, linkTexts, false);
      GetPages(leftText, linkTexts, true) ==
        if quiet.Ok? && quiet.value.allPageNums == [] then Err(NoPageNumbersToShow) else quiet
  {
  }

  // ---------------------------------------------------------------------------
  // The pagination box, rendered and read back

  /** The left box as the storefront renders it. */
  function PaginationBox(first: nat, last: nat, total: nat): string {
    "Showing " + Show(first) + " - " + Show(last) + " of " + Show(total)
  }

  lemma BoxWordsHaveNoDigits()
    ensures DigitRuns("Showing ") == [] && DigitRuns(" - ") == [] && DigitRuns(" of ") == []
  {
  }

  /** Appending text that starts with a non-digit adds its digit runs after the others. */
  lemma DigitRunsAppend(x: string, y: string)
    requires |y| > 0 && !IsAsciiDigit(y[0])
    ensures DigitRuns(x + y) == DigitRuns(x) + DigitRuns(y)
  {
    RunsAppend(x, y, IsAsciiDigit);
  }

  lemma DigitRunsAppendNumber(x: string, n: nat)
    requires |x| > 0 && !IsAsciiDigit(x[|x| - 1])
    ensures DigitRuns(x + Show(n)) == DigitRuns(x) + [Show(n)]
  {
    RunsOfRun(Show(n), IsAsciiDigit);
    RunsAppend(x, Show(n), IsAsciiDigit);
  }

  lemma DigitRunsOfBox(first: nat, last: nat, total: nat)
    ensures DigitRuns(PaginationBox(first, last, total)) == [Show(first), Show(last), Show(total)]
  {
    BoxWordsHaveNoDigits();
    var s1 := "Showing " + Show(first);
    DigitRunsAppendNumber("Showing ", first);
    var s2 := s1 + " - ";
    DigitRunsAppend(s1, " - ");
    var s3 := s2 + Show(last);
    DigitRunsAppendNumber(s2, last);
    var s4 := s3 + " of ";
    DigitRunsAppend(s3, " of ");
    DigitRunsAppendNumber(s4, total);
    assert PaginationBox(first, last, total) == s4 + Show(total);
  }

  lemma LastWordOfBox(first: nat, last: nat, total: nat)
    ensures var w := Words(PaginationBox(first, last, total)); |w| > 0 && w[|w| - 1] == Show(total)
  {
    var prefix := "Showing " + Show(first) + " - " + Show(last) + " of ";
    var f := Show(total);
    assert PaginationBox(first, last, total) == prefix + f;
    assert prefix[|prefix| - 1] == ' ';
    forall i | 0 <= i < |f|
      ensures IsNotSpace(f[i])
    {
      assert IsAsciiDigit(f[i]);
    }
    RunsOfRun(f, IsNotSpace);
    RunsAppend(prefix, f, IsNotSpace);
  }

  /** Reading a rendered box gives back what was rendered: the total is the last number,
      and the shown range is every number before it. */
  lemma PaginationBoxRoundTrip(first: nat, last: nat, total: nat)
    ensures TotalListings(PaginationBox(first, last, total)) == Ok(total)
    ensures ShowingListings(PaginationBox(first, last, total)) == [first, last]
  {
    ShowingOfBox(first, last, total);
    TotalOfBox(first, last, total);
  }

  lemma ShowingOfBox(first: nat, last: nat, total: nat)
    ensures ShowingListings(PaginationBox(first, last, total)) == [first, last]
  {
    DigitRunsOfBox(first, last, total);
    var r := ShowingListings(PaginationBox(first, last, total));
    assert |r| == 2;
    assert r[0] == DecimalValue(Show(first)) == first;
    assert r[1] == DecimalValue(Show(last)) == last;
  }

  lemma TotalOfBox(first: nat, last: nat, total: nat)
    ensures TotalListings(PaginationBox(first, last, total)) == Ok(total)
  {
    LastWordOfBox(first, last, total);
    var w := Words(PaginationBox(first, last, total));
    assert At(w, -1) == Some(Show(total));
    assert ParseInt(Show(total)) == Some(total);
  }

  /** A box whose range starts at 0 is read as page 1. */
  lemma RangeFromZeroIsPageOne(last: nat, total: nat)
    ensures CurrentPage(ShowingListings(PaginationBox(0, last, total))) == Ok(1)
  {
    PaginationBoxRoundTrip(0, last, total);
  }

  /** `get_pages` on a rendered box whose range lies on one page: that page is the
      current page, and the navigable pages are the linked pages and the current page,
      in increasing order, less the maximum page. */
  lemma GetPagesOnBox(first: nat, last: nat, total: nat, links: seq<string>, linked: seq<int>)
    requires 1 <= first <= last && PageOf(first) == PageOf(last)
    requires LinkPages(links) == Ok(linked)
    ensures GetPages(PaginationBox(first, last, total), links, false)
            == Ok(Pages(PageOf(last), [PageOf(first), PageOf(last)],
                        Without(SortedSet(linked + [PageOf(last)]), MaxPage(total))))
  {
    PaginationBoxRoundTrip(first, last, total);
    CurrentPageIsShownPage(first, last);
    PageListOfRange(first, last);
    GetPagesFromParts(PaginationBox(first, last, total), links, total, [first, last], PageOf(last), linked);
  }

  lemma PageListOfRange(first: nat, last: nat)
    ensures PageList([first, last]) == [PageOf(first), PageOf(last)]
  {
  }

  lemma GetPagesFromParts(leftText: string, links: seq<string>, total: int, showing: seq<nat>, current: nat, linked: seq<int>)
    requires TotalListings(leftText) == Ok(total)
    requires ShowingListings(leftText) == showing
    requires CurrentPage(showing) == Ok(current)
    requires LinkPages(links) == Ok(linked)
    ensures GetPages(leftText, links, false)
            == Ok(Pages(current, PageList(showing), Without(SortedSet(linked + [current]), MaxPage(total))))
  {
  }

  /** A strictly increasing list is fixed by its members. */
  lemma {:induction false} StrictlyIncreasingUnique(a: seq<int>, b: seq<int>)
    requires StrictlyIncreasing(a) && StrictlyIncreasing(b)
    requires forall y :: y in a <==> y in b
    ensures a == b
    decreases |a|
  {
    assert a != [] ==> a[0] in a && a[0] in b;
    assert b != [] ==> b[0] in b && b[0] in a;
    if a != [] && b != [] {
      assert a[0] == b[0] by {
        MinimumOfIncreasing(a, b[0]);
        MinimumOfIncreasing(b, a[0]);
      }
      forall y
        ensures y in a[1..] <==> y in b[1..]
      {
        TailMembers(a, y);
        TailMembers(b, y);
      }
      StrictlyIncreasingUnique(a[1..], b[1..]);
      assert a == [a[0]] + a[1..] && b == [b[0]] + b[1..];
    }
  }

  lemma MinimumOfIncreasing(a: seq<int>, y: int)
    requires StrictlyIncreasing(a) && y in a
    ensures a[0] <= y
  {
    var i :| 0 <= i < |a| && a[i] == y;
    assert i == 0 || a[0] < a[i];
  }

  lemma TailMembers(a: seq<int>, y: int)
    requires StrictlyIncreasing(a) && |a| > 0
    ensures y in a[1..] <==> y in a && y != a[0]
  {
    if y in a && y != a[0] {
      var i :| 0 <= i < |a| && a[i] == y;
      assert a[1..][i - 1] == y;
    }
    if y in a[1..] {
      var i :| 0 <= i < |a[1..]| && a[1..][i] == y;
      assert a[i + 1] == y && a[0] < a[i + 1];
    }
  }

  /** Page 2 of 5 linking to pages 2, 3 and 5 can navigate to pages 2 and 3 only. */
  lemma NavigablePagesExample()
    ensures MaxPage(125) == 5
    ensures Without(SortedSet([2, 3, 5] + [2]), 5) == [2, 3]
  {
    var r := Without(SortedSet([2, 3, 5] + [2]), 5);
    WithoutIncreasing(SortedSet([2, 3, 5] + [2]), 5);
    assert forall y :: y in r <==> y == 2 || y == 3;
    StrictlyIncreasingUnique(r, [2, 3]);
  }

  // ---------------------------------------------------------------------------
  // check_movement

  datatype Movement = Movement(canMoveBack: bool, canMoveForward: bool)

  /** `check_movement` over the labels of the `pagebtn` buttons: back when the first
      button is "<", forward when the last is ">"; indexing an empty list raises inside
      the source's `try`, so no buttons means neither direction. */
  function CheckMovement(buttons: seq<string>): (m: Movement)
    ensures m.canMoveBack <==> |buttons| > 0 && buttons[0] == "<"
    ensures m.canMoveForward <==> |buttons| > 0 && buttons[|buttons| - 1] == ">"
  {
    Movement(At(buttons, 0) == Some("<"), At(buttons, -1) == Some(">"))
  }
}
