/**
 * Row selection and field mapping of one page of the Zoho Books invoice
 * table (`extract_invoices_from_page`). A page is the sequence of its table
 * rows, a row the sequence of its cells' text contents.
 */
module InvoiceExtraction {
  import opened PyText

  type Row = seq<string>

  /** One collected invoice, with the five CSV columns. */
  datatype Invoice = Invoice(invoiceId: string, customer: string, amount: string, paidAt: string, status: string)

  /** Rows with fewer cells than this are incomplete and skipped. */
  const MinCells: nat := 8

  const AcceptedStatuses: seq<string> := ["Paid", "Partially Paid"]

  /** Every field is free of surrounding whitespace. */
  predicate IsClean(inv: Invoice) {
    IsStripped(inv.invoiceId) && IsStripped(inv.customer) && IsStripped(inv.amount)
    && IsStripped(inv.paidAt) && IsStripped(inv.status)
  }

  /** The field mapping of a complete row: date in cell 1, invoice number in
      cell 2, customer in cell 4, status in cell 5, amount in cell 7. */
  function ToInvoice(cells: Row): (inv: Invoice)
    requires |cells| >= MinCells
    ensures IsClean(inv)
  {
    Invoice(Strip(cells[2]), Strip(cells[4]), Strip(cells[7]), Strip(cells[1]), Strip(cells[5]))
  }

  /** A row yields an invoice: it is complete and its stripped status is accepted. */
  predicate Qualifies(cells: Row) {
    |cells| >= MinCells && Strip(cells[5]) in AcceptedStatuses
  }

  /** What one row contributes to the page's result. */
  function Kept(cells: Row): seq<Invoice> {
    if Qualifies(cells) then [ToInvoice(cells)] else []
  }

  /** The invoices of a page, row by row, in row order. */
  function Extracted(rows: seq<Row>): (r: seq<Invoice>)
    ensures |r| <= |rows|
    ensures forall k :: 0 <= k < |r| ==> r[k].status in AcceptedStatuses && IsClean(r[k])
  {
    if rows == [] then [] else Extracted(rows[..|rows| - 1]) + Kept(rows[|rows| - 1])
  }

  /** The positions of the qualifying rows, in increasing order. */
  function QualifyingRows(rows: seq<Row>): (r: seq<nat>)
    ensures forall k :: 0 <= k < |r| ==> r[k] < |rows| && Qualifies(rows[r[k]])
    ensures forall k, l :: 0 <= k < l < |r| ==> r[k] < r[l]
    ensures forall i :: 0 <= i < |rows| && Qualifies(rows[i]) ==> i in r
  {
    if rows == [] then []
    else
      var n := |rows| - 1;
      QualifyingRows(rows[..n]) + (if Qualifies(rows[n]) then [n] else [])
  }

  /** `extract_invoices_from_page`: walks the rows once, skips incomplete
      ones and appends the invoice of every row whose status is accepted. */
  method ExtractInvoicesFromPage(rows: seq<Row>) returns (invoices: seq<Invoice>)
    ensures invoices == Extracted(rows)
  {
    invoices := [];
    for i := 0 to |rows|
      invariant invoices == Extracted(rows[..i])
    {
      assert rows[..i + 1][..i] == rows[..i];
      var cells := rows[i];
      if |cells| < MinCells {
        continue;
      }
      var invoiceData := ToInvoice(cells);
      if invoiceData.status in AcceptedStatuses {
        invoices := invoices + [invoiceData];
      }
    }
    assert rows[..|rows|] == rows;
  }

  /** Soundness, completeness and order in one statement: the k-th invoice is
      the field mapping of the k-th qualifying row, and there is exactly one
      invoice per qualifying row. */
  lemma {:induction false} ExtractedFollowsQualifyingRows(rows: seq<Row>)
    ensures |Extracted(rows)| == |QualifyingRows(rows)|
    ensures forall k :: 0 <= k < |Extracted(rows)| ==>
      Extracted(rows)[k] == ToInvoice(rows[QualifyingRows(rows)[k]])
  {
    if rows != [] {
      var n := |rows| - 1;
      var front := rows[..n];
      ExtractedFollowsQualifyingRows(front);
      var e, q := Extracted(rows), QualifyingRows(rows);
      var ef, qf := Extracted(front), QualifyingRows(front);
      assert e == ef + Kept(rows[n]);
      assert q == qf + (if Qualifies(rows[n]) then [n] else []);
      forall k | 0 <= k < |e| ensures e[k] == ToInvoice(rows[q[k]]) {
        if k < |ef| {
          assert e[k] == ef[k] && q[k] == qf[k];
          assert rows[qf[k]] == front[qf[k]];
        }
      }
    }
  }

  /** The result of a table is the results of its parts, joined in order. */
  lemma {:induction false} ExtractedAppend(a: seq<Row>, b: seq<Row>)
    ensures Extracted(a + b) == Extracted(a) + Extracted(b)
  {
    if b == [] {
      assert a + b == a;
    } else {
      var n := |b| - 1;
      assert (a + b)[..|a + b| - 1] == a + b[..n];
      assert (a + b)[|a + b| - 1] == b[n];
      ExtractedAppend(a, b[..n]);
    }
  }

  /** The result of a one-row table. */
  lemma ExtractedSingle(row: Row)
    ensures Extracted([row]) == Kept(row)
  {
    assert [row][..0] == [];
  }

  /** A row with fewer than eight cells contributes nothing, wherever it is. */
  lemma ShortRowIgnored(before: seq<Row>, row: Row, after: seq<Row>)
    requires |row| < MinCells
    ensures Extracted(before + [row] + after) == Extracted(before + after)
  {
    ExtractedAppend(before + [row], after);
    ExtractedAppend(before, [row]);
    ExtractedAppend(before, after);
    ExtractedSingle(row);
    var head := Extracted(before);
    assert Extracted(before + [row]) == head + [] == head;
  }

  /** A qualifying row contributes exactly its own invoice, in its place. */
  lemma QualifyingRowKept(before: seq<Row>, row: Row, after: seq<Row>)
    requires Qualifies(row)
    ensures Extracted(before + [row] + after) == Extracted(before) + [ToInvoice(row)] + Extracted(after)
  {
    ExtractedAppend(before + [row], after);
    ExtractedAppend(before, [row]);
    ExtractedSingle(row);
  }

  /** A status cell padded with whitespace still qualifies, and the invoice
      carries the bare status. */
  lemma PaddedStatusQualifies(cells: Row, pre: string, status: string, suf: string)
    requires |cells| >= MinCells && status in AcceptedStatuses
    requires AllSpace(pre) && AllSpace(suf) && cells[5] == pre + status + suf
    ensures Qualifies(cells) && ToInvoice(cells).status == status
  {
    assert IsStripped(status);
    StripOfPadded(pre, status, suf);
  }
}
