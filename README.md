# markdown-qr in Dafny

A model of `markdown-qr.py`, a script that prepares a Markdown document for
printing. It replaces every link `[text](url)` with a footnote reference
`[^id]`. It writes one QR code image per distinct URL. It appends
footnote definitions `[^id]: text (QR code: [Qref])` and a LaTeX appendix
that shows the QR codes in pages of 4 x 5.

The model is split by the parts of the script:

- `format.dfy` (`Format`): the decimal text that an f-string gives a
  non-negative integer, and `str.join`.
- `link_pattern.dfy` (`LinkPattern`): the pattern `\[(.*?)\]\((.*?)\)`,
  written out by hand. It has lazy groups and no newline inside either
  group. It also covers the left-to-right, non-overlapping scan that
  `re.sub` makes, which cuts a document into plain text and links.
- `registry.dfy` (`Registry`): the identity registry, made of
  `link_to_footid`, `footid_to_data`, `url_to_ref` and the two counters.
  - `State` and `Step` describe it as a value.
  - The class `IdentityRegistry` holds the same dictionaries and counters
    as fields, and its `ReplaceLink` (that is, `link_replacer`) updates
    them in place. The QR code images written are the field `generated`.
  - The invariant `Inv` and first-occurrence numbering are proved over
    whole documents.
- `rewriter.dfy` (`Rewriter`): the `re.sub` pass as a loop that calls
  `ReplaceLink`. It is proved equal to a pure rewriting function.
- `footnotes.dfy` (`Footnotes`): the footnote definition block and the loop
  that builds it.
- `appendix.dfy` (`Appendix`): sorting the (URL, reference) items, cutting
  them into pages and rows, padding rows and the exact LaTeX text. It has
  the loops that build it.
- `document.dfy` (`Document`): the whole output for one input. That is the
  header, the rewritten text, the footnotes and the appendix.

## Model

| member | source | states |
|---|---|---|
| Format.NatToString | markdown-qr.py:47 | The decimal text of a number is a non-empty string of digits with no leading zero. |
| Format.DecimalValueOfNatToString | markdown-qr.py:47 | Reading the decimal text back gives the number again. |
| Format.NatToStringInjective | markdown-qr.py:47 | Different numbers are written as different strings. |
| Format.Join | markdown-qr.py:111 | `sep.join(parts)` holds the parts in order with one separator between neighbours. Its length is the parts' total length plus one separator per gap. |
| LinkPattern.FindSeparator | markdown-qr.py:54 | Returns the first `](` at or after a position with no newline before it. It returns none exactly when every later `](` has a newline before it. |
| LinkPattern.FindClose | markdown-qr.py:54 | Returns the first `)` at or after a position with no newline before it. It returns none exactly when every later `)` has a newline before it. |
| LinkPattern.MatchAt | markdown-qr.py:54 | What it reports is a match of the pattern that starts at the given position. |
| LinkPattern.MatchAtIsFirstTried | markdown-qr.py:54 | If the pattern can match at a position at all, MatchAt finds a match there. That match is the one lazy backtracking tries first: shortest text, then shortest URL. |
| LinkPattern.NextMatch | markdown-qr.py:54 | The match found starts at or after the scan position and has `[`, `](` and `)` in place. |
| LinkPattern.NextMatchIsLeftmost | markdown-qr.py:54 | The match reported is the one at the leftmost position where the pattern matches. When it reports none, no position from there on has a match. |
| LinkPattern.NextMatchMissesNothing | markdown-qr.py:54 | If any match starts at or after the scan position, the scan finds one that starts no later. |
| LinkPattern.SpanOfMatch | markdown-qr.py:54 | The matched span is `[`, the text group, `](`, the URL group and `)`. |
| LinkPattern.Tokenize | markdown-qr.py:54 | The document is cut at the successive leftmost, non-overlapping matches, resuming after each match's `)`. Plain text and links alternate, with plain text (possibly empty) first and last. |
| LinkPattern.TokenizeSpellsOut | markdown-qr.py:54 | Cutting the document at the successive leftmost matches loses and adds nothing. The plain pieces and the spelled-out links give back the document. |
| Registry.Step | markdown-qr.py:26-47 | After a link is handled, its pair has a footnote number and its URL has a reference number. |
| Registry.ResolveAll | markdown-qr.py:54 | The registry after `link_replacer` has run on each link of a list, in order. Each link adds at most one footnote and at most one image, and images are only appended. |
| Registry.Marker | markdown-qr.py:47 | `[^id]` is `[^`, the decimal text of id, and `]`. Reading the digits back gives id. |
| Registry.InitialInv | markdown-qr.py:13-18 | The empty dictionaries with both counters at 1 satisfy the registry invariant. |
| Registry.AddFootnoteKeeps | markdown-qr.py:33-36 | Giving a new pair the current counter and the counter's number back to the pair keeps the ids exactly 1..counter-1, and keeps the two footnote maps inverse. |
| Registry.AddRefKeeps | markdown-qr.py:41-44 | Giving a new URL the current reference counter and generating its image keeps the references exactly 1..counter-1. Image number r is the image of the URL with reference r. |
| Registry.StepKeepsInv | markdown-qr.py:26-47 | `link_replacer` keeps the invariant. Footnote ids are exactly 1..foot_counter-1, and the two footnote maps are mutual inverses. References are exactly 1..ref_counter-1 and match the images written. Every footnote URL has a reference, and ref_counter <= foot_counter. |
| Registry.RepeatedPairChangesNothing | markdown-qr.py:33-38 | A pair seen before leaves the whole registry unchanged: the maps, the counters and the images written. |
| Registry.StepIdempotent | markdown-qr.py:26-47 | Handling the same link twice in a row is the same as handling it once. |
| Registry.NewPairGetsCounter | markdown-qr.py:33-36 | A new pair gets foot_counter, footid_to_data maps that number back to it, and the counter goes up by one. Every earlier number is kept. |
| Registry.NewUrlGetsCounter | markdown-qr.py:41-44 | A new URL gets ref_counter and exactly one image with that same reference, then the counter goes up. A URL seen before gets no image. |
| Registry.StepExtends | markdown-qr.py:26-47 | Numbers once given are never changed or taken back, and images written stay written. |
| Registry.SharedUrl | markdown-qr.py:33-44 | One URL under two link texts gets two footnote numbers, and at most one image is written for the two. |
| Registry.ResolveAllKeepsInv | markdown-qr.py:54 | The invariant holds after any sequence of links. |
| Registry.FootnotesInFirstOccurrenceOrder | markdown-qr.py:33-36 | From the empty registry, footnote numbers 1, 2, ... go to the distinct pairs in the order they first occur. The numbered pairs are exactly the pairs that occur. |
| Registry.QrCodesInFirstOccurrenceOrder | markdown-qr.py:41-44 | From the empty registry, exactly one image is written per distinct URL, in the order the URLs first occur, with references 1, 2, .... The URLs with references are exactly the URLs that occur. |
| Registry.FewerQrCodesThanFootnotes | markdown-qr.py:33-44 | A document never has more QR codes than footnotes. |
| Registry.MarkerInjective | markdown-qr.py:47 | Different footnote numbers give different references `[^id]` in the text. |
| Registry.IdentityRegistry.constructor | markdown-qr.py:13-18 | The registry starts empty with both counters at 1 and satisfies the invariant. |
| Registry.IdentityRegistry.Register | markdown-qr.py:32-44 | The two guarded in-place updates change the dictionaries, the counters and the images exactly as `Step` says. |
| Registry.IdentityRegistry.ReplaceLink | markdown-qr.py:26-47 | On a valid registry, the update is exactly `Step` and the registry stays valid. It returns `[^id]` for the pair's number. |
| Rewriter.Substitute | markdown-qr.py:54 | `re.sub` with `link_replacer`: each link is replaced when the scan reaches it, with the registry as the earlier links left it. The counters only go up and images are only added. The text and registry it produces are characterised by `SubstituteRenders` and `SubstituteResolves`. |
| Rewriter.Render | markdown-qr.py:47-54 | The pieces with every link written as `[^id]` for its number. Pieces without links give back the document text unchanged. |
| Rewriter.SubstituteKeepsIds | markdown-qr.py:33-38 | During the pass, footnote numbers once given stay as they are. |
| Rewriter.SubstituteRenders | markdown-qr.py:47-54 | The rewritten text is the document with each link replaced by `[^id]`, where id is the number the final registry gives its pair. Text outside links is copied as it is. |
| Rewriter.SubstituteResolves | markdown-qr.py:54 | The registry after the pass is the one `link_replacer` leaves after the document's links, taken in document order. |
| Rewriter.NoLinksAfter | markdown-qr.py:54 | Text with no match left is copied unchanged, and the registry is untouched. |
| Rewriter.RewriteLinks | markdown-qr.py:54 | The scan loop computes exactly the rewritten text and final registry of the pure rewriting, and keeps the registry valid. |
| Footnotes.FootnoteLine | markdown-qr.py:78-79 | The definition line `[^id]: text (QR code: [Qref])` and a line break. Its shape is stated by `FootnoteLineShape`. |
| Footnotes.FootnoteLineShape | markdown-qr.py:78-79 | A definition line opens with the footnote's `[^id]` and ends with a line break. When the link text has no newline, as the pattern guarantees, the line holds no other line break. |
| Footnotes.FootnoteBlock | markdown-qr.py:73-79 | The definition lines of footnotes 1 .. foot_counter-1, joined in that order. `OneLinePerFootnote` and `WriteFootnotes` state what it holds and that the loop builds it. |
| Footnotes.InvResolvable | markdown-qr.py:74-76 | Under the invariant, every footnote number below the counter has a pair, and that pair's URL has a reference. So the lookups at lines 75-76 never fail. |
| Footnotes.DefinitionLinesInOrder | markdown-qr.py:74-79 | The definition lines run over the footnote numbers in ascending order, one line per number. |
| Footnotes.OneLinePerFootnote | markdown-qr.py:73-79 | The block has exactly one line per footnote. Line i is `[^i+1]: text (QR code: [Qref])`, with ref the reference of that footnote's URL. |
| Footnotes.SortedIdsAreOneToN | markdown-qr.py:74 | `sorted(footid_to_data.keys())` is 1, 2, ..., foot_counter-1. |
| Footnotes.ReferenceNamesImage | markdown-qr.py:76-79 | The reference printed in a footnote names the image written for that footnote's URL. |
| Footnotes.WriteFootnotes | markdown-qr.py:73-79 | The footnote loop builds exactly the footnote block of the registry. |
| Appendix.SortedListingUnique | markdown-qr.py:89 | Sorting the items by reference has a single possible result. |
| Appendix.GeneratedIsSorted | markdown-qr.py:89 | Under the invariant, the images written are the items of `url_to_ref`, sorted by reference. |
| Appendix.SortedItems | markdown-qr.py:89 | The items looked up reference by reference are the sorted listing of `url_to_ref`. |
| Appendix.Chunk | markdown-qr.py:90 | `[xs[i:i+k] for i in range(0, len(xs), k)]`, also used for the rows at lines 97-98. `ChunkCount`, `ChunkSizes` and `FlattenChunk` state its count, sizes and round trip. |
| Appendix.ChunkCount | markdown-qr.py:90-98 | Slicing by 4 or by 20 gives ceil(N / k) slices. |
| Appendix.PageCount | markdown-qr.py:90 | There are ceil(N / 20) pages. |
| Appendix.RowCount | markdown-qr.py:97-98 | A page of n items has ceil(n / 4) rows, so a full page of 20 has 5 rows. |
| Appendix.ChunkSizes | markdown-qr.py:90 | Every page but the last has exactly 20 items. The last has 1 to 20. |
| Appendix.FlattenChunk | markdown-qr.py:90 | The slices concatenate back to the list. |
| Appendix.Pagination | markdown-qr.py:84-90 | The pages of the sorted items come from these three facts together. |
| Appendix.Cell | markdown-qr.py:102-107 | The minipage of QR code `ref`, with the raw string's doubled braces kept as written. `CellInjective` states that different references give different cells. |
| Appendix.RowCells | markdown-qr.py:99-110 | The item cells of a row, then `""` up to 4 cells. `RowCellsShape` states its shape. |
| Appendix.RowText | markdown-qr.py:111 | `" & ".join(row_cells)`, then `\\[6pt]` and a line break. |
| Appendix.PageText | markdown-qr.py:94-113 | One page: `\footnotesize`, the tabular opening, one row text per row of 4, the tabular closing. `BuildRows` builds its rows. |
| Appendix.PagesText | markdown-qr.py:92-113 | The page texts one after the other. |
| Appendix.AppendixText | markdown-qr.py:82-113 | The appendix heading, then the pages of 20 sorted items. `BuildAppendix` builds it. |
| Appendix.RowCellsShape | markdown-qr.py:99-110 | A row has exactly 4 cells: the item cells in order, then padding `""`. |
| Appendix.PaddingOnlyAtEnd | markdown-qr.py:97-110 | Within a page every emitted row has 4 cells. Every row but the last holds only item cells, so padding appears only at the end of the last row. |
| Appendix.GridHoldsItems | markdown-qr.py:92-111 | Taken page by page and row by row, the non-padding cells are the cells of the sorted items, in order. |
| Appendix.CellInjective | markdown-qr.py:102-107 | Different references give different cells. |
| Appendix.EachRefOnce | markdown-qr.py:89-111 | For images numbered 1..N, every reference appears in exactly one non-padding cell of the appendix. |
| Appendix.BuildRowCells | markdown-qr.py:99-110 | The cell loop and the padding `while` loop build the row's padded cells. |
| Appendix.BuildRows | markdown-qr.py:97-111 | The row loop over offsets 0, 4, 8, ... builds the text of the page's rows of 4. |
| Appendix.BuildAppendix | markdown-qr.py:82-113 | The page loop builds the appendix text: the heading, then one tabular per page of 20. |
| Document.DocumentText | markdown-qr.py:69-115 | The output: header, `\n`, the rewritten text, `\n\n`, the footnote block and the appendix. `Convert` builds it, and `NoLinksDocument` states the link-free case. |
| Document.FinalRegistry | markdown-qr.py:13-54 | After the pass, the registry satisfies the invariant and the footnote lookups succeed. |
| Document.Convert | markdown-qr.py:54-115 | The script's steps produce exactly the document: header, rewritten text, footnotes and appendix. The images written are the final registry's. |
| Document.ImagesFollowDocument | markdown-qr.py:33-54 | The images written, and the footnotes, follow the first occurrences in the document. |
| Document.NoLinksDocument | markdown-qr.py:54-115 | A document without links comes out unchanged after the header. Only an empty footnote block and the appendix heading follow it. |

## Left out

- Reading `input.md`, writing `output.md` and creating `qr_codes/` (lines 6-10, 50-51, 118-119) are file I/O. `Convert` takes the input text and returns the output text.
- Python's text-mode `open` (line 50) turns `\r\n` and `\r` into `\n` while reading. `Convert`'s `content` is the text after that translation, so a carriage return in the input file acts as a newline for the link pattern. The translation itself is not modelled.
- `generate_qr` (lines 20-24) calls the `qrcode` library and saves a PNG. The model records each call as `QrCode(url, ref)` in the registry's `generated` field, which stands for the file `qr_<ref>.png`. The image's pixels are not modelled.
- Python's `re` engine in general. Only the one pattern of line 54 is modelled, by hand.
- Characters are Unicode scalar values, and the UTF-8 encoding of the files is not modelled.
- The registry is module-global state in the script. Here it is an object created fresh by `Convert`, because one run converts one document.
- `sorted(footid_to_data.keys())` (line 74) is modelled as counting 1 up to foot_counter-1. `Footnotes.SortedIdsAreOneToN` shows that the sorted keys are exactly that list.
- `sorted(url_to_ref.items(), key=...)` (line 89) is modelled by `Appendix.SortedItems`, which looks up each reference 1, 2, ... in turn rather than running a general sort. `Appendix.SortedListingUnique` shows that every sorted listing of the items is that one.
