/**
 * The whole conversion: the YAML header, the text with its links replaced by
 * footnote references, the footnote definitions and the QR code appendix.
 */
module Document {
  import opened LinkPattern
  import opened Registry
  import opened Rewriter
  import opened Footnotes
  import opened Appendix

  /** The YAML header for Pandoc/LaTeX, a raw string, so its backslashes are literal. */
  const Header: string :=
    "---\n"
    + "header-includes:\n"
    + "    - \\usepackage[utf8]{inputenc}\n"
    + "    - \\usepackage[T1]{fontenc}\n"
    + "    - \\usepackage{graphicx}\n"
    + "    - \\usepackage{newunicodechar}\n"
    + "    - \\newunicodechar{\U{03B4}}{$\\delta$}\n"
    + "    - \\newunicodechar{\U{2082}}{$_2$}\n"
    + "    - \\usepackage{url}\n"
    + "    - \\usepackage{rotating}\n"
    + "---\n"

  /** The registry after the scan of `content`, from the empty registry. */
  function FinalRegistry(content: string): (st: State)
    ensures Inv(st) && Resolvable(st)
    ensures st == ResolveAll(Initial, Links(Tokenize(content, 0)))
  {
    var ps := Tokenize(content, 0);
    SubstituteResolves(Initial, ps);
    InitialInv();
    ResolveAllKeepsInv(Initial, Links(ps));
    var st := Substitute(Initial, ps).registry;
    InvResolvable(st);
    st
  }

  /** The output document for input `content`. */
  function DocumentText(content: string): string {
    var st := FinalRegistry(content);
    Header + "\n" + Substitute(Initial, Tokenize(content, 0)).text + "\n\n" + FootnoteBlock(st) + AppendixText(st.generated)
  }

  /**
   * The script from reading the input to writing the output: a fresh
   * registry, the `re.sub` pass, the footnote loop and the appendix loop.
   * `images` are the QR code images written, in the order written.
   */
  method Convert(content: string) returns (output: string, images: seq<QrCode>)
    ensures output == DocumentText(content)
    ensures images == FinalRegistry(content).generated
  {
    var reg := new IdentityRegistry();
    var text := RewriteLinks(reg, content);
    var block := WriteFootnotes(reg);
    var items := SortedItems(reg);
    var appendix := BuildAppendix(items);
    output := Header + "\n" + text + "\n\n" + block + appendix;
    images := reg.generated;
  }

  /**
   * The QR code images written are one per distinct URL among the document's
   * links, in the order the URLs first occur, numbered from 1; the appendix
   * lists them in that order, and the footnotes number the distinct
   * (text, URL) pairs in the order they first occur.
   */
  lemma ImagesFollowDocument(content: string)
    ensures QrCodesFollow(FinalRegistry(content), Links(Tokenize(content, 0)))
    ensures FootnotesFollow(FinalRegistry(content), Links(Tokenize(content, 0)))
  {
    QrCodesInFirstOccurrenceOrder(Links(Tokenize(content, 0)));
    FootnotesInFirstOccurrenceOrder(Links(Tokenize(content, 0)));
  }

  /** A document without links gains only the header and an appendix heading. */
  lemma NoLinksDocument(content: string)
    requires NextMatch(content, 0).None?
    ensures DocumentText(content) == Header + "\n" + content + "\n\n" + AppendixHeading
  {
    NoLinksAfter(Initial, content, 0);
    var st := FinalRegistry(content);
    assert st == Initial;
    assert content[0..] == content;
  }
}
