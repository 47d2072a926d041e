/**
 * The pagination loop of `collect_invoices`. The browser is abstracted to the
 * sequence of page snapshots it shows: `snapshots[k]` is what the page looks
 * like after k clicks on the "next" button. Once the recorded snapshots run
 * out, a further click leaves the last snapshot showing.
 */
module Pagination {
  import opened Wrappers
  import opened InvoiceExtraction

  /** What the loop reads from the page: the table rows, the text content of
      the table body, whether the third pagination button (the "next" button)
      is visible, and its `disabled` attribute, absent or a string. */
  datatype Page = Page(rows: seq<Row>, tbody: string, nextVisible: bool, disabled: Option<string>)

  /** The safety limit on the number of pages processed. */
  const MaxPages: nat := 5

  /** Python truthiness of `get_attribute("disabled")`: `None` and the empty
      string are false, every other string is true. */
  function Truthy(attribute: Option<string>): (r: bool)
    ensures r <==> attribute != None && attribute != Some("")
  {
    match attribute
    case None => false
    case Some(text) => |text| > 0
  }

  /** The test that guards the click: the next button is visible and its
      `disabled` attribute is not truthy. */
  predicate NextEnabled(p: Page) {
    p.nextVisible && !Truthy(p.disabled)
  }

  /** The page shown after `clicks` clicks: always one of the recorded
      snapshots, the last one once they run out. */
  function At(snapshots: seq<Page>, clicks: nat): (p: Page)
    requires |snapshots| > 0
    ensures p in snapshots
  {
    if clicks < |snapshots| then snapshots[clicks] else snapshots[|snapshots| - 1]
  }

  /** On the page shown after k clicks, the loop clicks "next" and the table
      body text changes, so it goes on to the following page. */
  predicate Advances(snapshots: seq<Page>, k: nat)
    requires |snapshots| > 0
  {
    NextEnabled(At(snapshots, k)) && At(snapshots, k).tbody != At(snapshots, k + 1).tbody
  }

  /** The row tables of the first n pages shown, in page order. */
  function TablesShown(snapshots: seq<Page>, n: nat): (r: seq<seq<Row>>)
    requires |snapshots| > 0
    ensures |r| == n
    ensures forall k :: 0 <= k < n ==> r[k] == At(snapshots, k).rows
  {
    if n == 0 then [] else TablesShown(snapshots, n - 1) + [At(snapshots, n - 1).rows]
  }

  /** The invoices of a run of pages: each page's extraction, joined in page
      order. */
  function Gathered(tables: seq<seq<Row>>): (r: seq<Invoice>)
    ensures forall k :: 0 <= k < |r| ==> r[k].status in AcceptedStatuses && IsClean(r[k])
  {
    if tables == [] then [] else Gathered(tables[..|tables| - 1]) + Extracted(tables[|tables| - 1])
  }

  /** A run of pages as one table. */
  function Flatten(tables: seq<seq<Row>>): seq<Row> {
    if tables == [] then [] else Flatten(tables[..|tables| - 1]) + tables[|tables| - 1]
  }

  /** The value `page_number` ends with when the loop starts at
      `pageNumber`: it moves on while the current page advances and the
      safety limit is not passed. */
  function FinalPageFrom(snapshots: seq<Page>, pageNumber: nat): (r: nat)
    requires |snapshots| > 0 && pageNumber >= 1
    ensures r >= pageNumber
    ensures pageNumber <= MaxPages + 1 ==> r <= MaxPages + 1
    decreases MaxPages + 1 - pageNumber
  {
    if pageNumber > MaxPages then pageNumber
    else if Advances(snapshots, pageNumber - 1) then FinalPageFrom(snapshots, pageNumber + 1)
    else pageNumber
  }

  /** The final value of `page_number`. */
  function FinalPage(snapshots: seq<Page>): (r: nat)
    requires |snapshots| > 0
    ensures 1 <= r <= MaxPages + 1
  {
    FinalPageFrom(snapshots, 1)
  }

  /** How many pages were extracted: the final page number, except when the
      loop ran into the limit after advancing from the last allowed page. */
  function PagesProcessed(snapshots: seq<Page>): (r: nat)
    requires |snapshots| > 0
    ensures 1 <= r <= MaxPages && r <= FinalPage(snapshots)
  {
    if FinalPage(snapshots) <= MaxPages then FinalPage(snapshots) else MaxPages
  }

  /** The loop of `collect_invoices`: extract the current page, append its
      invoices, then either click "next" and go on if the table body changed,
      or stop. Returns the accumulated invoices and the final page counter. */
  method CollectInvoices(snapshots: seq<Page>) returns (allInvoices: seq<Invoice>, pageNumber: nat)
    requires |snapshots| > 0
    ensures pageNumber == FinalPage(snapshots)
    ensures allInvoices == Gathered(TablesShown(snapshots, PagesProcessed(snapshots)))
  {
    allInvoices := [];
    pageNumber := 1;
    var clicks := 0;
    while pageNumber <= MaxPages
      invariant 1 <= pageNumber <= MaxPages + 1
      invariant clicks == pageNumber - 1
      invariant FinalPageFrom(snapshots, pageNumber) == FinalPage(snapshots)
      invariant allInvoices == Gathered(TablesShown(snapshots, pageNumber - 1))
      decreases MaxPages + 1 - pageNumber
    {
      var page := At(snapshots, clicks);
      var invoices := ExtractInvoicesFromPage(page.rows);
      allInvoices := allInvoices + invoices;
      ghost var tables := TablesShown(snapshots, pageNumber);
      assert tables[..pageNumber - 1] == TablesShown(snapshots, pageNumber - 1);
      if NextEnabled(page) {
        var currentContent := page.tbody;
        clicks := clicks + 1;
        var newContent := At(snapshots, clicks).tbody;
        if currentContent == newContent {
          break;
        }
        pageNumber := pageNumber + 1;
      } else {
        break;
      }
    }
  }

  /** The final page number is the first page that does not advance, or one
      past the limit: every earlier page advanced, and, unless it ended at the
      limit, the loop stopped on a page that did not. */
  lemma {:induction false} FinalPageFromStops(snapshots: seq<Page>, pageNumber: nat)
    requires |snapshots| > 0 && 1 <= pageNumber <= MaxPages + 1
    ensures var r := FinalPageFrom(snapshots, pageNumber);
      r <= MaxPages + 1
      && (forall k :: pageNumber - 1 <= k < r - 1 ==> Advances(snapshots, k))
      && (r <= MaxPages ==> !Advances(snapshots, r - 1))
    decreases MaxPages + 1 - pageNumber
  {
    if pageNumber <= MaxPages && Advances(snapshots, pageNumber - 1) {
      FinalPageFromStops(snapshots, pageNumber + 1);
    }
  }

  /** `page_number` grows by one per page that advanced and never passes the
      limit by more than one; at most MaxPages pages are extracted. */
  lemma FinalPageStops(snapshots: seq<Page>)
    requires |snapshots| > 0
    ensures 1 <= FinalPage(snapshots) <= MaxPages + 1
    ensures 1 <= PagesProcessed(snapshots) <= MaxPages
    ensures forall k :: 0 <= k < FinalPage(snapshots) - 1 ==> Advances(snapshots, k)
    ensures FinalPage(snapshots) <= MaxPages ==> !Advances(snapshots, FinalPage(snapshots) - 1)
  {
    FinalPageFromStops(snapshots, 1);
  }

  /** Collecting page by page is extracting from all the pages' rows as one
      table. */
  lemma {:induction false} GatheredIsExtractedOfFlatten(tables: seq<seq<Row>>)
    ensures Gathered(tables) == Extracted(Flatten(tables))
  {
    if tables != [] {
      var n := |tables| - 1;
      GatheredIsExtractedOfFlatten(tables[..n]);
      ExtractedAppend(Flatten(tables[..n]), tables[n]);
    }
  }

  /** No more invoices are collected than rows were seen. */
  lemma GatheredBounded(tables: seq<seq<Row>>)
    ensures |Gathered(tables)| <= |Flatten(tables)|
  {
    GatheredIsExtractedOfFlatten(tables);
  }

  /** The three ways the loop stops on a page: the next button is hidden, its
      `disabled` attribute is a non-empty string, or the click leaves the
      table body text as it was. An empty `disabled` value does not stop it:
      the click goes ahead. That is faithful only for an element Playwright
      treats as enabled: not a native form control carrying `disabled`, and
      not under `aria-disabled="true"` or a disabled `<fieldset>` (on such an
      element the click times out, and that run is not modelled). */
  lemma StopConditions(snapshots: seq<Page>, k: nat)
    requires |snapshots| > 0
    ensures var p, q := At(snapshots, k), At(snapshots, k + 1);
      (Advances(snapshots, k) <==> p.nextVisible && !Truthy(p.disabled) && p.tbody != q.tbody)
      && (!p.nextVisible ==> !Advances(snapshots, k))
      && (p.disabled.Some? && p.disabled.value != "" ==> !Advances(snapshots, k))
      && (p.tbody == q.tbody ==> !Advances(snapshots, k))
      && (p.nextVisible && p.disabled == Some("") && p.tbody != q.tbody ==> Advances(snapshots, k))
  {
  }

  /** Past the recorded snapshots a click changes nothing, so no page from
      the last snapshot on advances. */
  lemma LastSnapshotStops(snapshots: seq<Page>, k: nat)
    requires |snapshots| > 0 && k >= |snapshots| - 1
    ensures !Advances(snapshots, k)
  {
  }

  /** The walk never goes past the recorded snapshots: the final page number
      is at most their count. */
  lemma FinalPageWithinSnapshots(snapshots: seq<Page>)
    requires |snapshots| > 0
    ensures FinalPage(snapshots) <= |snapshots|
  {
    FinalPageStops(snapshots);
    LastSnapshotStops(snapshots, |snapshots| - 1);
  }
}
