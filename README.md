# Zoho Books paid-invoice collector, modelled in Dafny

The collector opens the Zoho Books invoice list in a browser and walks through its pages. On each page it
reads the table rows and keeps the invoices whose status is "Paid" or "Partially Paid". It then writes
them to a CSV file. This project models the two parts of that script that hold logic:

- **Row selection and field mapping** (`extract_invoices_from_page`), in `extraction.dfy`.
  - A page is a sequence of rows, and a row is the sequence of its cells' text contents.
  - A row with fewer than 8 cells is skipped.
  - Otherwise the five fields are taken from cells 2, 4, 7, 1 and 5 and stripped of surrounding whitespace.
  - The row is kept only if its stripped status is one of the accepted statuses.
  - The method `ExtractInvoicesFromPage` keeps the source's `for` loop, with its `continue` and its
    append. It is proved equal to the function `Extracted`, and the lemmas state soundness,
    completeness, order, the length bound and whitespace tolerance about that function.
- **Pagination** (the `while` loop of `collect_invoices`), in `pagination.dfy`.
  - The browser becomes the sequence of page snapshots it shows: `snapshots[k]` is the page after k
    clicks on "next".
  - A snapshot carries its rows, the text of the table body, whether the next button is visible, and
    its `disabled` attribute (absent, or a string).
  - `CollectInvoices` keeps the loop: the `page_number` counter, the limit of 5 pages, the `extend`
    of the accumulated list, and the two `break` exits.
  - It is proved against `FinalPage` (the final counter value) and against `Gathered` over the pages
    shown (the accumulated invoices). Lemmas characterise when the walk stops.
- Python's `str.strip()` and `str.isspace()` are modelled in `pytext.dfy`.
  - `Strip` scans forward over the leading whitespace, then backward over the trailing whitespace,
    and returns the slice in between.
  - Lemmas show that it removes exactly the two whitespace runs.

Behaviour worth knowing, as the code has it:

- `not next_button.get_attribute("disabled")` uses Python truthiness. An absent attribute and an
  empty-string value both count as "enabled", so the guard lets an empty `disabled` through.
  - For a native form control carrying a bare `disabled` attribute (`<button disabled>`,
    `<input type="button" disabled>` and the like), `get_attribute` returns the empty string. (A value
    such as `disabled="disabled"` is truthy, and the guard stops the loop without clicking.) `click()` then waits for the element to
    become enabled and raises a timeout. The exception leaves `collect_invoices`
    before `save_to_csv`, so nothing is written. The model does not cover this run (see "Left out").
  - The model's click-and-compare path for an empty `disabled` (the last clause of `StopConditions`)
    is faithful only for an element Playwright treats as enabled: not a native form control carrying `disabled`, and not under `aria-disabled="true"` or a disabled `<fieldset>`. Such an element is clicked, and the loop then stops only if the
    table body did not change.
- When the fifth page advances, `page_number` becomes 6. A sixth page has then been clicked to but is
  not extracted.
- The clicks are abstracted to a finite sequence of snapshots. Once it runs out, a further click
  leaves the last snapshot showing. This is a convention of the model, not something the script
  guarantees: a live site may keep changing its table body. Under that convention the walk ends at
  the last snapshot at the latest (`LastSnapshotStops`, `FinalPageWithinSnapshots`).

`CollectInvoices` returns the accumulated invoices and the final `page_number`. In the script both
are local variables. Only the invoice list is passed on, to the CSV writer; `page_number` is returned
here so that its final value can be stated.

## Model

| member | source | states |
|---|---|---|
| `PyText.IsSpace` | zoho_paid_invoce_collector_script.py:34-38 | definition: the whitespace test that `strip` uses, Python 3's `str.isspace()` on one character, as membership in the 29 characters whose bidirectional class is WS, B or S or whose category is Zs |
| `PyText.SkipSpace` | zoho_paid_invoce_collector_script.py:34-38 | the leading-whitespace scan of `strip`: every character it passes is whitespace, and it stops at the first non-whitespace character or at the end |
| `PyText.SkipSpaceBack` | zoho_paid_invoce_collector_script.py:34-38 | the trailing-whitespace scan of `strip`: every character it passes is whitespace, and it stops after the last non-whitespace character or at the lower bound |
| `PyText.Strip` | zoho_paid_invoce_collector_script.py:34-38 | a stripped value has no leading or trailing whitespace; it is empty exactly when the cell text is all whitespace |
| `PyText.StripCuts` | zoho_paid_invoce_collector_script.py:34-38 | there are positions i <= j such that the stripped value is the slice of the cell text from i to j, and everything before i and after j is whitespace: only surrounding whitespace is removed |
| `PyText.StripOfPadded` | zoho_paid_invoce_collector_script.py:34-38 | stripping a text with no surrounding whitespace, padded by whitespace on both sides, gives back that text |
| `PyText.StripOfStripped` | zoho_paid_invoce_collector_script.py:34-38 | stripping leaves a text with no surrounding whitespace unchanged, so stripping twice is stripping once |
| `InvoiceExtraction.ToInvoice` | zoho_paid_invoce_collector_script.py:28-39 | a row of at least 8 cells maps to an invoice (indices 2, 4, 7, 1, 5 are all in bounds) whose five fields have no surrounding whitespace |
| `InvoiceExtraction.Qualifies` | zoho_paid_invoce_collector_script.py:28-42 | definition: a row yields an invoice when it has at least 8 cells and its stripped status cell is "Paid" or "Partially Paid" |
| `InvoiceExtraction.Kept` | zoho_paid_invoce_collector_script.py:28-43 | definition: what one row adds to the page's list, its invoice if it qualifies and nothing otherwise |
| `InvoiceExtraction.Extracted` | zoho_paid_invoce_collector_script.py:21-46 | a page yields no more invoices than it has rows, and every invoice it yields has status "Paid" or "Partially Paid" and clean fields |
| `InvoiceExtraction.QualifyingRows` | zoho_paid_invoce_collector_script.py:24-43 | the positions of the complete rows whose stripped status is accepted: all in bounds, strictly increasing, and every such row is listed |
| `InvoiceExtraction.ExtractInvoicesFromPage` | zoho_paid_invoce_collector_script.py:14-46 | the row loop with `continue` and `append` returns exactly `Extracted` of the page's rows |
| `InvoiceExtraction.ExtractedFollowsQualifyingRows` | zoho_paid_invoce_collector_script.py:24-46 | there are as many invoices as qualifying rows, and the k-th invoice is the field mapping of the k-th qualifying row: sound, complete, one per row, in row order |
| `InvoiceExtraction.ExtractedAppend` | zoho_paid_invoce_collector_script.py:24-46 | the result for two runs of rows is the result for the first followed by the result for the second |
| `InvoiceExtraction.ShortRowIgnored` | zoho_paid_invoce_collector_script.py:28-29 | a row with fewer than 8 cells contributes nothing, wherever it stands |
| `InvoiceExtraction.QualifyingRowKept` | zoho_paid_invoce_collector_script.py:41-43 | a qualifying row contributes exactly its own invoice, between the invoices of the rows before and after it |
| `InvoiceExtraction.PaddedStatusQualifies` | zoho_paid_invoce_collector_script.py:38-42 | a status cell holding an accepted status padded with whitespace still qualifies, and the invoice carries the bare status |
| `Pagination.Truthy` | zoho_paid_invoce_collector_script.py:85 | the `disabled` attribute counts as set only when it is present and not the empty string |
| `Pagination.NextEnabled` | zoho_paid_invoce_collector_script.py:85 | definition: the guard before a click, the next button is visible and its `disabled` attribute is not truthy |
| `Pagination.At` | zoho_paid_invoce_collector_script.py:83-95 | the page the browser shows after any number of clicks is always one of the recorded snapshots |
| `Pagination.Advances` | zoho_paid_invoce_collector_script.py:85-101 | definition: a page advances when the guard lets the click through and the table body text after the click differs from the text before it, the case that reaches `page_number += 1` |
| `Pagination.TablesShown` | zoho_paid_invoce_collector_script.py:79 | the row tables of the first n pages shown: n of them, the k-th being the rows of the page after k clicks |
| `Pagination.Gathered` | zoho_paid_invoce_collector_script.py:71-80 | every invoice accumulated over a run of pages has an accepted status and clean fields |
| `Pagination.FinalPageFrom` | zoho_paid_invoce_collector_script.py:75-104 | the counter never decreases while the loop runs, and from a start within the limit it ends at 6 at most |
| `Pagination.FinalPage` | zoho_paid_invoce_collector_script.py:72-104 | the value of `page_number` when the loop ends lies between 1 and 6 |
| `Pagination.PagesProcessed` | zoho_paid_invoce_collector_script.py:72-104 | the number of pages extracted lies between 1 and 5 and never exceeds the final counter |
| `Pagination.CollectInvoices` | zoho_paid_invoce_collector_script.py:71-104 | the loop ends with `page_number` equal to `FinalPage`, and the accumulated list is the page-by-page concatenation of the extractions of the pages processed |
| `Pagination.FinalPageFromStops` | zoho_paid_invoce_collector_script.py:75-104 | from any starting page, every page up to the final one advanced, and a final page within the limit did not advance |
| `Pagination.FinalPageStops` | zoho_paid_invoce_collector_script.py:72-104 | the final counter is between 1 and 6, and at most 5 pages are extracted. The counter went up once per page whose click changed the table body, and, unless it ended at the limit (counter 6), the loop stopped on a page that did not advance |
| `Pagination.GatheredIsExtractedOfFlatten` | zoho_paid_invoce_collector_script.py:79-80 | collecting page by page gives the same invoices as extracting from all the pages' rows as one table |
| `Pagination.GatheredBounded` | zoho_paid_invoce_collector_script.py:79-80 | no more invoices are collected than rows were seen |
| `Pagination.StopConditions` | zoho_paid_invoce_collector_script.py:85-104 | a page advances exactly when its next button is visible, its `disabled` is not truthy and the click changed the body. A hidden button, a non-empty `disabled` or an unchanged body stops the loop; an empty `disabled` does not, and the click goes ahead (faithful only for an element Playwright treats as enabled: not a native form control carrying `disabled`, and not under `aria-disabled="true"` or a disabled `<fieldset>`; otherwise the click times out, which is not modelled) |
| `Pagination.LastSnapshotStops` | zoho_paid_invoce_collector_script.py:90-99 | a consequence of the snapshot convention, not a promise of the script: a page from the last snapshot on never advances, because a click past the snapshots leaves the body unchanged |
| `Pagination.FinalPageWithinSnapshots` | zoho_paid_invoce_collector_script.py:75-101 | a consequence of the snapshot convention, not a promise of the script: the final counter never exceeds the number of snapshots |

## Left out

- The retry and idempotency layer: exponential back-off, the session ledger, session identifiers and the `safe_*` wrappers. The test file `tests/test_retry_and_idempotency.py` imports these names, but the collector script does not define them, so there is no code to model.
- The browser calls (`sync_playwright`, `launch`, `goto`, `wait_for_load_state`, `wait_for_selector`, `locator`, `click`, `wait_for_timeout`). This is foreign I/O. It is replaced by the snapshot sequence. A timeout raised by `wait_for_selector` or by `click` is not modelled, and neither is a `text_content()` that returns `None`. The `click` timeout is the empty-`disabled` case on an element Playwright treats as disabled (a native form control carrying `disabled`, or one under `aria-disabled="true"` or a disabled `<fieldset>`): the guard lets it through, the click raises, and the script ends without writing the CSV. Nor is the raise of the strict locator `page.locator("tbody")` when the page holds more than one `<tbody>` (lines 87 and 95): a single `tbody` string per snapshot assumes exactly one. The model instead clicks and compares the bodies, which is faithful only for an element Playwright treats as enabled: not a native form control carrying `disabled`, and not under `aria-disabled="true"` or a disabled `<fieldset>`.
- `save_to_csv`, `os.makedirs`, reading the CSV back, `print`, `input()` and `browser.close()`. These are file and console I/O.
- The 10-second selector timeout and the 1000 ms pause. These are wall-clock timing with no effect on the data.
- `ExtractInvoicesFromPage` and `CollectInvoices` take plain values. Playwright's live page object, whose contents may change between reads, is not modelled: each snapshot is fixed.
