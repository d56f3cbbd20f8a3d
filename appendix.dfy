/**
 * The QR code appendix: the (URL, reference) items sorted by reference, cut
 * into pages of 4 x 5 = 20, each page a LaTeX tabular with rows of 4 cells,
 * the last row of a page padded with empty cells.
 */
module Appendix {
  import opened Format
  import opened Registry

  const Columns: nat := 4
  const RowsPerPage: nat := 5
  const ItemsPerPage: nat := Columns * RowsPerPage

  /* ---------- Sorting the items by reference ---------- */

  /** items holds exactly the entries of urlToRef, strictly ascending by reference. */
  ghost predicate SortedListing(urlToRef: map<string, nat>, items: seq<QrCode>) {
    && Ascending(items)
    && (forall i :: 0 <= i < |items| ==> items[i].url in urlToRef && urlToRef[items[i].url] == items[i].ref)
    && (forall u :: u in urlToRef ==> QrCode(u, urlToRef[u]) in items)
  }

  /**
   * `sorted(url_to_ref.items(), key=lambda x: x[1])` has one possible result:
   * two listings of the same entries, both strictly ascending by reference,
   * are equal (references are distinct, so stability plays no part).
   */
  lemma SortedListingUnique(urlToRef: map<string, nat>, a: seq<QrCode>, b: seq<QrCode>)
    requires SortedListing(urlToRef, a) && SortedListing(urlToRef, b)
    ensures a == b
  {
    SameElements(urlToRef, a, b);
    SameElements(urlToRef, b, a);
    AscendingSameElements(a, b);
  }

  lemma SameElements(urlToRef: map<string, nat>, a: seq<QrCode>, b: seq<QrCode>)
    requires SortedListing(urlToRef, a) && SortedListing(urlToRef, b)
    ensures forall x :: x in a ==> x in b
  {
    forall x | x in a ensures x in b {
      var i :| 0 <= i < |a| && a[i] == x;
      assert QrCode(x.url, urlToRef[x.url]) in b;
    }
  }

  predicate Ascending(a: seq<QrCode>) {
    forall i, j :: 0 <= i < j < |a| ==> a[i].ref < a[j].ref
  }

  /** Two lists strictly ascending by reference with the same elements are equal. */
  lemma {:induction false} AscendingSameElements(a: seq<QrCode>, b: seq<QrCode>)
    requires Ascending(a) && Ascending(b)
    requires forall x :: x in a ==> x in b
    requires forall x :: x in b ==> x in a
    ensures a == b
    decreases |a|
  {
    if |a| > 0 {
      assert a[0] in b;
    }
    if |b| > 0 {
      assert b[0] in a;
    }
    if |a| > 0 && |b| > 0 {
      var j :| 0 <= j < |a| && a[j] == b[0];
      var k :| 0 <= k < |b| && b[k] == a[0];
      assert j == 0 && k == 0;
      AscendingTail(a);
      AscendingTail(b);
      AscendingSameElements(a[1..], b[1..]);
      assert a == [a[0]] + a[1..] && b == [b[0]] + b[1..];
    }
  }

  /** The tail of an ascending list is ascending and holds everything but the head. */
  lemma AscendingTail(a: seq<QrCode>)
    requires Ascending(a) && |a| > 0
    ensures Ascending(a[1..])
    ensures forall x :: x in a[1..] <==> x in a && x != a[0]
  {
    forall x | x in a && x != a[0] ensures x in a[1..] {
      var i :| 0 <= i < |a| && a[i] == x;
      assert a[1..][i - 1] == x;
    }
    forall x | x in a[1..] ensures x != a[0] {
      var i :| 0 <= i < |a[1..]| && a[1..][i] == x;
      assert a[i + 1] == x;
    }
  }

  /** Under the registry invariant the generated images are the sorted listing of `url_to_ref`. */
  lemma GeneratedIsSorted(st: State)
    requires Inv(st)
    ensures SortedListing(st.urlToRef, st.generated)
  {
    forall u | u in st.urlToRef ensures QrCode(u, st.urlToRef[u]) in st.generated {
      var r := st.urlToRef[u];
      assert st.generated[r - 1].ref == r;
    }
  }

  /**
   * The sorted items: for each reference 1, 2, ... in turn, the URL that has
   * it. The invariant guarantees each reference below the counter has one.
   */
  method SortedItems(reg: IdentityRegistry) returns (items: seq<QrCode>)
    requires reg.Valid()
    ensures SortedListing(reg.urlToRef, items)
    ensures items == reg.generated
  {
    ghost var st := reg.Model();
    items := [];
    var ref := 1;
    while ref < reg.refCounter
      invariant 1 <= ref <= reg.refCounter
      invariant items == st.generated[..ref - 1]
    {
      assert st.generated[ref - 1].url in reg.urlToRef;
      var u :| u in reg.urlToRef && reg.urlToRef[u] == ref;
      assert u == st.generated[ref - 1].url;
      items := items + [QrCode(u, ref)];
      ref := ref + 1;
    }
    assert items == st.generated;
    GeneratedIsSorted(st);
  }

  /* ---------- Cutting into pages and rows ---------- */

  /** `[xs[i:i+k] for i in range(0, len(xs), k)]`: consecutive slices of k, the last one shorter. */
  function Chunk<T>(xs: seq<T>, k: nat): seq<seq<T>>
    requires k > 0
    decreases |xs|
  {
    if |xs| == 0 then []
    else if |xs| <= k then [xs]
    else [xs[..k]] + Chunk(xs[k..], k)
  }

  /**
   * Slicing by the row width or the page size gives ceil(N / k) slices. The
   * two sizes are the only ones used, and naming them keeps the division
   * linear.
   */
  lemma {:induction false} ChunkCount<T>(xs: seq<T>, k: nat)
    requires k == Columns || k == ItemsPerPage
    ensures |Chunk(xs, k)| == (|xs| + k - 1) / k
    decreases |xs|
  {
    if k == Columns {
      assert Columns == 4;
    } else {
      assert ItemsPerPage == 20;
    }
    if |xs| > k {
      ChunkCount(xs[k..], k);
    }
  }

  /** There are ceil(N / 20) pages. */
  lemma PageCount<T>(xs: seq<T>)
    ensures |Chunk(xs, ItemsPerPage)| == (|xs| + ItemsPerPage - 1) / ItemsPerPage
  {
    ChunkCount(xs, ItemsPerPage);
  }

  /**
   * A page of n items has ceil(n / 4) rows, so a full page of 20 has
   * `RowsPerPage` rows.
   */
  lemma RowCount<T>(page: seq<T>)
    ensures |Chunk(page, Columns)| == (|page| + Columns - 1) / Columns
    ensures |page| == ItemsPerPage ==> |Chunk(page, Columns)| == RowsPerPage
  {
    ChunkCount(page, Columns);
  }

  /** Every chunk but the last has exactly k elements; the last has 1 to k. */
  lemma {:induction false} ChunkSizes<T>(xs: seq<T>, k: nat)
    requires k > 0
    ensures forall i :: 0 <= i < |Chunk(xs, k)| - 1 ==> |Chunk(xs, k)[i]| == k
    ensures |Chunk(xs, k)| > 0 ==> 1 <= |Chunk(xs, k)[|Chunk(xs, k)| - 1]| <= k
    decreases |xs|
  {
    if |xs| > k {
      ChunkSizes(xs[k..], k);
      var c := Chunk(xs, k);
      assert forall i :: 1 <= i < |c| ==> c[i] == Chunk(xs[k..], k)[i - 1];
    }
  }

  /** Concatenating the chunks gives back the list. */
  lemma {:induction false} FlattenChunk<T>(xs: seq<T>, k: nat)
    requires k > 0
    ensures Flatten(Chunk(xs, k)) == xs
    decreases |xs|
  {
    if |xs| > k {
      FlattenChunk(xs[k..], k);
      var c := Chunk(xs, k);
      assert c[1..] == Chunk(xs[k..], k);
      assert xs == xs[..k] + xs[k..];
    } else if |xs| > 0 {
      assert Chunk(xs, k)[1..] == [];
    }
  }

  /* ---------- The LaTeX text ---------- */

  /**
   * The cell of QR code `ref`. The first part is a raw non-f string, so its
   * doubled braces reach the output as written; the second and third are raw
   * f-strings, where `{{` and `}}` stand for single braces.
   */
  function Cell(ref: nat): string {
    CellPrefix + (NatToString(ref) + CellLabel(ref))
  }

  const CellPrefix: string := "\\begin{minipage}[t]{{0.25\\textwidth}}\\centering \\includegraphics[width=3cm]{qr_codes/qr_"

  function CellLabel(ref: nat): string {
    ".png}\\\\[-2pt]\\footnotesize [Q" + NatToString(ref) + "]\\end{minipage}"
  }

  /** The cells of the items of a row, in order. */
  function CellsOf(row: seq<QrCode>): seq<string> {
    if |row| == 0 then [] else [Cell(row[0].ref)] + CellsOf(row[1..])
  }

  function Blanks(n: nat): seq<string> {
    if n == 0 then [] else [[]] + Blanks(n - 1)
  }

  lemma {:induction false} BlanksIndex(n: nat)
    ensures |Blanks(n)| == n && forall i :: 0 <= i < n ==> Blanks(n)[i] == []
  {
    if n > 0 {
      BlanksIndex(n - 1);
    }
  }

  lemma {:induction false} BlanksSnoc(n: nat)
    ensures Blanks(n) + [[]] == Blanks(n + 1)
  {
    if n > 0 {
      BlanksSnoc(n - 1);
    }
  }

  /** A row's cells, padded with "" up to the column count as the `while` loop pads them. */
  function RowCells(row: seq<QrCode>): seq<string> {
    CellsOf(row) + Blanks(if |row| < Columns then Columns - |row| else 0)
  }

  /** `" & ".join(row_cells) + r" \\" + "[6pt]\n"` */
  function RowText(cells: seq<string>): string {
    Join(" & ", cells) + " \\\\[6pt]\n"
  }

  function RowsText(rows: seq<seq<QrCode>>): string {
    if |rows| == 0 then [] else RowText(RowCells(rows[0])) + RowsText(rows[1..])
  }

  const PageOpen: string := "\\footnotesize\n" + "\\begin{tabular}{@{}" + Repeat('c', Columns) + "@{}}\n"
  /** `"c" * n` */
  function Repeat(c: char, n: nat): string {
    if n == 0 then [] else [c] + Repeat(c, n - 1)
  }

  const PageClose: string := "\\end{tabular}\n\n"

  /** One page: the tabular with the page's items in rows of `Columns`. */
  function PageText(page: seq<QrCode>): string {
    PageOpen + RowsText(Chunk(page, Columns)) + PageClose
  }

  function PagesText(pages: seq<seq<QrCode>>): string {
    if |pages| == 0 then [] else PageText(pages[0]) + PagesText(pages[1..])
  }

  const AppendixHeading: string := "\n\n# Appendix: QR Codes\n\n"

  /** The whole appendix for the sorted items. */
  function AppendixText(items: seq<QrCode>): string {
    AppendixHeading + PagesText(Chunk(items, ItemsPerPage))
  }

  /* ---------- Properties of the grid ---------- */

  lemma {:induction false} CellsOfIndex(row: seq<QrCode>)
    ensures |CellsOf(row)| == |row|
    ensures forall i :: 0 <= i < |row| ==> CellsOf(row)[i] == Cell(row[i].ref)
  {
    if |row| > 0 {
      CellsOfIndex(row[1..]);
    }
  }

  /**
   * A row of at most `Columns` items has exactly `Columns` cells: the item
   * cells in order, then the padding, which is "".
   */
  lemma RowCellsShape(row: seq<QrCode>)
    requires |row| <= Columns
    ensures |RowCells(row)| == Columns
    ensures forall i :: 0 <= i < |row| ==> RowCells(row)[i] == Cell(row[i].ref)
    ensures forall i :: |row| <= i < Columns ==> RowCells(row)[i] == []
  {
    CellsOfIndex(row);
    BlanksIndex(Columns - |row|);
  }

  /** The pages: ceil(N / 20) of them, all full but the last, together the sorted items. */
  lemma Pagination(items: seq<QrCode>)
    ensures |Chunk(items, ItemsPerPage)| == (|items| + ItemsPerPage - 1) / ItemsPerPage
    ensures forall p :: 0 <= p < |Chunk(items, ItemsPerPage)| - 1 ==> |Chunk(items, ItemsPerPage)[p]| == ItemsPerPage
    ensures |items| > 0 ==> 1 <= |Chunk(items, ItemsPerPage)[|Chunk(items, ItemsPerPage)| - 1]| <= ItemsPerPage
    ensures Flatten(Chunk(items, ItemsPerPage)) == items
  {
    PageCount(items);
    ChunkSizes(items, ItemsPerPage);
    FlattenChunk(items, ItemsPerPage);
  }

  /**
   * Within a page, every row but the last is full, so padding cells occur
   * only at the end of the page's last row, and every emitted row has exactly
   * `Columns` cells.
   */
  lemma PaddingOnlyAtEnd(page: seq<QrCode>)
    ensures forall r :: 0 <= r < |Chunk(page, Columns)| ==> |RowCells(Chunk(page, Columns)[r])| == Columns
    ensures forall r :: 0 <= r < |Chunk(page, Columns)| - 1 ==> CellsOf(Chunk(page, Columns)[r]) == RowCells(Chunk(page, Columns)[r])
  {
    var rows := Chunk(page, Columns);
    ChunkSizes(page, Columns);
    forall r | 0 <= r < |rows| ensures |RowCells(rows[r])| == Columns {
      RowCellsShape(rows[r]);
    }
  }

  /** The cells the grid emits, page by page and row by row. */
  function GridCells(pages: seq<seq<QrCode>>): seq<string> {
    if |pages| == 0 then [] else PageCells(Chunk(pages[0], Columns)) + GridCells(pages[1..])
  }

  function PageCells(rows: seq<seq<QrCode>>): seq<string> {
    if |rows| == 0 then [] else RowCells(rows[0]) + PageCells(rows[1..])
  }

  /** The cells that are not padding. */
  function Filled(cells: seq<string>): seq<string> {
    if |cells| == 0 then []
    else (if |cells[0]| == 0 then [] else [cells[0]]) + Filled(cells[1..])
  }

  lemma {:induction false} FilledAppend(a: seq<string>, b: seq<string>)
    ensures Filled(a + b) == Filled(a) + Filled(b)
  {
    if |a| > 0 {
      assert (a + b)[1..] == a[1..] + b;
      FilledAppend(a[1..], b);
    } else {
      assert a + b == b;
    }
  }

  lemma {:induction false} CellsOfAppend(a: seq<QrCode>, b: seq<QrCode>)
    ensures CellsOf(a + b) == CellsOf(a) + CellsOf(b)
  {
    if |a| > 0 {
      assert (a + b)[1..] == a[1..] + b;
      CellsOfAppend(a[1..], b);
    } else {
      assert a + b == b;
    }
  }

  lemma {:induction false} FilledCells(row: seq<QrCode>)
    ensures Filled(CellsOf(row)) == CellsOf(row)
  {
    if |row| > 0 {
      var c := CellsOf(row);
      assert c[1..] == CellsOf(row[1..]);
      FilledCells(row[1..]);
    }
  }

  lemma {:induction false} FilledBlanks(n: nat)
    ensures Filled(Blanks(n)) == []
  {
    if n > 0 {
      assert Blanks(n)[1..] == Blanks(n - 1);
      FilledBlanks(n - 1);
    }
  }

  lemma FilledRow(row: seq<QrCode>)
    ensures Filled(RowCells(row)) == CellsOf(row)
  {
    FilledAppend(CellsOf(row), Blanks(if |row| < Columns then Columns - |row| else 0));
    FilledCells(row);
    FilledBlanks(if |row| < Columns then Columns - |row| else 0);
  }

  lemma {:induction false} FilledPage(rows: seq<seq<QrCode>>)
    ensures Filled(PageCells(rows)) == CellsOf(Flatten(rows))
  {
    if |rows| > 0 {
      FilledAppend(RowCells(rows[0]), PageCells(rows[1..]));
      FilledRow(rows[0]);
      FilledPage(rows[1..]);
      CellsOfAppend(rows[0], Flatten(rows[1..]));
    }
  }

  lemma {:induction false} FilledGrid(pages: seq<seq<QrCode>>)
    ensures Filled(GridCells(pages)) == CellsOf(Flatten(pages))
  {
    if |pages| > 0 {
      FilledAppend(PageCells(Chunk(pages[0], Columns)), GridCells(pages[1..]));
      FilledPage(Chunk(pages[0], Columns));
      FlattenChunk(pages[0], Columns);
      FilledGrid(pages[1..]);
      CellsOfAppend(pages[0], Flatten(pages[1..]));
    }
  }

  /** The cells that are not padding are the items' cells, in the sorted order. */
  lemma GridHoldsItems(items: seq<QrCode>)
    ensures Filled(GridCells(Chunk(items, ItemsPerPage))) == CellsOf(items)
  {
    FilledGrid(Chunk(items, ItemsPerPage));
    FlattenChunk(items, ItemsPerPage);
  }

  /** The longest run of digits at the start of s. */
  function LeadingDigits(s: string): string {
    if |s| == 0 || !IsDigit(s[0]) then [] else [s[0]] + LeadingDigits(s[1..])
  }

  lemma {:induction false} LeadingDigitsOf(d: string, rest: string)
    requires AllDigits(d) && |rest| > 0 && !IsDigit(rest[0])
    ensures LeadingDigits(d + rest) == d
  {
    if |d| > 0 {
      assert (d + rest)[1..] == d[1..] + rest;
      LeadingDigitsOf(d[1..], rest);
    } else {
      assert d + rest == rest;
    }
  }

  lemma DropPrefix(pre: string, s: string)
    ensures (pre + s)[|pre|..] == s
  {
  }

  /** Different references give different cells. */
  lemma CellInjective(a: nat, b: nat)
    requires Cell(a) == Cell(b)
    ensures a == b
  {
    DropPrefix(CellPrefix, NatToString(a) + CellLabel(a));
    DropPrefix(CellPrefix, NatToString(b) + CellLabel(b));
    assert CellLabel(a)[0] == '.' && CellLabel(b)[0] == '.';
    LeadingDigitsOf(NatToString(a), CellLabel(a));
    LeadingDigitsOf(NatToString(b), CellLabel(b));
    NatToStringInjective(a, b);
  }

  lemma CellsDiffer(a: nat, b: nat)
    requires a != b
    ensures Cell(a) != Cell(b)
  {
    if Cell(a) == Cell(b) {
      CellInjective(a, b);
    }
  }

  /** Item i (from 0) has reference i + 1. */
  predicate NumberedFromOne(items: seq<QrCode>) {
    forall i :: 0 <= i < |items| ==> items[i].ref == i + 1
  }

  lemma GeneratedNumbered(st: State)
    requires Inv(st)
    ensures NumberedFromOne(st.generated) && |st.generated| == |st.urlToRef|
  {
  }

  /**
   * For the images numbered 1 .. N, as the registry keeps them, every
   * reference occupies exactly one non-padding cell of the appendix: the
   * one at position ref - 1, and no two non-padding cells are the same.
   */
  lemma EachRefOnce(items: seq<QrCode>)
    requires NumberedFromOne(items)
    ensures
      var filled := Filled(GridCells(Chunk(items, ItemsPerPage)));
      && |filled| == |items|
      && (forall r :: 1 <= r <= |filled| ==> filled[r - 1] == Cell(r))
      && (forall i, j :: 0 <= i < j < |filled| ==> filled[i] != filled[j])
  {
    GridHoldsItems(items);
    CellsOfIndex(items);
    CellsDistinct(items);
  }

  lemma CellsDistinct(items: seq<QrCode>)
    requires NumberedFromOne(items)
    ensures forall i, j :: 0 <= i < j < |CellsOf(items)| ==> CellsOf(items)[i] != CellsOf(items)[j]
  {
    CellsOfIndex(items);
    forall i, j | 0 <= i < j < |items| ensures Cell(items[i].ref) != Cell(items[j].ref) {
      CellsDiffer(items[i].ref, items[j].ref);
    }
  }

  /* ---------- The loops that build the text ---------- */

  /** The cells of one row: one per item, then `while len(row_cells) < columns` pads with "". */
  method BuildRowCells(row: seq<QrCode>) returns (cells: seq<string>)
    ensures cells == RowCells(row)
  {
    cells := [];
    for i := 0 to |row|
      invariant cells == CellsOf(row[..i])
    {
      CellsOfAppend(row[..i], [row[i]]);
      assert row[..i + 1] == row[..i] + [row[i]];
      cells := cells + [Cell(row[i].ref)];
    }
    assert row[..|row|] == row;
    CellsOfIndex(row);
    ghost var items := cells;
    while |cells| < Columns
      invariant |items| <= |cells|
      invariant cells == items + Blanks(|cells| - |items|)
      invariant |cells| <= Columns || |cells| == |items|
      decreases Columns - |cells|
    {
      BlanksSnoc(|cells| - |items|);
      cells := cells + [[]];
    }
  }

  /** The rows of one page: `for r in range(0, len(page), columns)`, one text line per row. */
  method BuildRows(page: seq<QrCode>) returns (text: string)
    ensures text == RowsText(Chunk(page, Columns))
  {
    text := [];
    var r := 0;
    while r < |page|
      invariant r <= |page|
      invariant text + RowsText(Chunk(page[r..], Columns)) == RowsText(Chunk(page, Columns))
      decreases |page| - r
    {
      var end := if r + Columns < |page| then r + Columns else |page|;
      var cells := BuildRowCells(page[r..end]);
      RowsStep(page, r, end);
      AppendAssoc(text, RowText(cells), RowsText(Chunk(page[end..], Columns)));
      text := text + RowText(cells);
      r := end;
    }
  }

  lemma RowsStep(page: seq<QrCode>, r: nat, end: nat)
    requires r < |page| && end == (if r + Columns < |page| then r + Columns else |page|)
    ensures RowsText(Chunk(page[r..], Columns)) == RowText(RowCells(page[r..end])) + RowsText(Chunk(page[end..], Columns))
  {
    var rest := page[r..];
    if |rest| > Columns {
      assert rest[..Columns] == page[r..end];
      assert rest[Columns..] == page[end..];
      assert Chunk(rest, Columns)[1..] == Chunk(page[end..], Columns);
    } else {
      assert rest == page[r..end];
      assert page[end..] == [];
      assert Chunk(rest, Columns)[1..] == [];
    }
  }

  /** The appendix loop: the heading, then one tabular per page of 20 items. */
  method BuildAppendix(items: seq<QrCode>) returns (text: string)
    ensures text == AppendixText(items)
  {
    text := AppendixHeading;
    var pages := Chunk(items, ItemsPerPage);
    for p := 0 to |pages|
      invariant text + PagesText(pages[p..]) == AppendixText(items)
    {
      var rows := BuildRows(pages[p]);
      PagesStep(pages, p);
      AppendAssoc(text, PageOpen + rows + PageClose, PagesText(pages[p + 1..]));
      text := text + (PageOpen + rows + PageClose);
    }
  }

  lemma PagesStep(pages: seq<seq<QrCode>>, p: nat)
    requires p < |pages|
    ensures PagesText(pages[p..]) == PageText(pages[p]) + PagesText(pages[p + 1..])
  {
    assert pages[p..][1..] == pages[p + 1..];
  }
}
