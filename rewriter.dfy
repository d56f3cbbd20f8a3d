/**
 * The `re.sub` pass of the converter: every link the scan finds is handed to
 * `link_replacer`, in document order, and replaced by the footnote reference
 * it returns; the text between links is copied as it is.
 */
module Rewriter {
  import opened LinkPattern
  import opened Registry
  import opened Format

  /** The rewritten text and the registry after it. */
  datatype Rewriting = Rewriting(text: string, registry: State)

  /**
   * `re.sub` with `link_replacer` over the pieces of a document, starting
   * from registry `st`: the replacement for a link is computed when the scan
   * reaches it, with the registry as the links before it left it. Counters
   * only go up and images are only ever added.
   */
  function Substitute(st: State, ps: seq<Piece>): (r: Rewriting)
    ensures st.footCounter <= r.registry.footCounter && st.refCounter <= r.registry.refCounter
    ensures st.generated <= r.registry.generated
    decreases |ps|
  {
    if |ps| == 0 then Rewriting([], st)
    else
      match ps[0]
      case Plain(chars) =>
        var rest := Substitute(st, ps[1..]);
        Rewriting(chars + rest.text, rest.registry)
      case Inline(l) =>
        var st1 := Step(st, l);
        var rest := Substitute(st1, ps[1..]);
        Rewriting(Marker(st1.linkToFootId[l]) + rest.text, rest.registry)
  }

  /** Every link among the pieces has a footnote number in `ids`. */
  predicate LinksKnown(ps: seq<Piece>, ids: map<Link, nat>) {
    forall i :: 0 <= i < |ps| && ps[i].Inline? ==> ps[i].link in ids
  }

  /**
   * The pieces with each link written as its footnote reference `[^id]`;
   * pieces without links are the document text unchanged.
   */
  function Render(ps: seq<Piece>, ids: map<Link, nat>): (r: string)
    requires LinksKnown(ps, ids)
    ensures Links(ps) == [] ==> r == Source(ps)
  {
    if |ps| == 0 then []
    else
      (match ps[0]
       case Plain(chars) => chars
       case Inline(l) => Marker(ids[l]))
      + Render(ps[1..], ids)
  }

  /** Footnote numbers, once given, stay as they are. */
  ghost predicate KeepsIds(ids: map<Link, nat>, ids': map<Link, nat>) {
    forall l :: l in ids ==> l in ids' && ids'[l] == ids[l]
  }

  lemma StepKeepsIds(st: State, l: Link)
    ensures KeepsIds(st.linkToFootId, Step(st, l).linkToFootId)
  {
  }

  lemma {:induction false} SubstituteKeepsIds(st: State, ps: seq<Piece>)
    ensures KeepsIds(st.linkToFootId, Substitute(st, ps).registry.linkToFootId)
    decreases |ps|
  {
    if |ps| > 0 {
      match ps[0]
      case Plain(_) =>
        SubstituteKeepsIds(st, ps[1..]);
      case Inline(l) =>
        StepKeepsIds(st, l);
        SubstituteKeepsIds(Step(st, l), ps[1..]);
    }
  }

  /** Rendering depends only on the numbers of the links rendered. */
  lemma {:induction false} RenderStable(ps: seq<Piece>, ids: map<Link, nat>, ids': map<Link, nat>)
    requires LinksKnown(ps, ids) && KeepsIds(ids, ids')
    ensures LinksKnown(ps, ids') && Render(ps, ids') == Render(ps, ids)
  {
    if |ps| > 0 {
      assert LinksKnown(ps[1..], ids) by {
        forall i | 0 <= i < |ps[1..]| && ps[1..][i].Inline? ensures ps[1..][i].link in ids {
          assert ps[1..][i] == ps[i + 1];
        }
      }
      RenderStable(ps[1..], ids, ids');
    }
  }

  /**
   * The rewritten text is the document with every link replaced by the
   * reference to the footnote number the final registry gives its pair, so
   * the numbers in the text agree with the footnote definitions.
   */
  lemma {:induction false} SubstituteRenders(st: State, ps: seq<Piece>)
    ensures LinksKnown(ps, Substitute(st, ps).registry.linkToFootId)
    ensures Substitute(st, ps).text == Render(ps, Substitute(st, ps).registry.linkToFootId)
    decreases |ps|
  {
    if |ps| > 0 {
      var final := Substitute(st, ps).registry.linkToFootId;
      match ps[0]
      case Plain(_) =>
        SubstituteRenders(st, ps[1..]);
      case Inline(l) =>
        var st1 := Step(st, l);
        SubstituteRenders(st1, ps[1..]);
        SubstituteKeepsIds(st1, ps[1..]);
        assert l in final && final[l] == st1.linkToFootId[l];
    }
  }

  lemma {:induction false} ResolveAllCons(st: State, l: Link, ls: seq<Link>)
    ensures ResolveAll(st, [l] + ls) == ResolveAll(Step(st, l), ls)
    decreases |ls|
  {
    if |ls| == 0 {
      assert ([l] + ls)[..0] == [];
    } else {
      var n := |ls|;
      assert ([l] + ls)[..n] == [l] + ls[..n - 1];
      ResolveAllCons(st, l, ls[..n - 1]);
    }
  }

  /** The registry after the pass is the one `link_replacer` leaves after each link in document order. */
  lemma {:induction false} SubstituteResolves(st: State, ps: seq<Piece>)
    ensures Substitute(st, ps).registry == ResolveAll(st, Links(ps))
    decreases |ps|
  {
    if |ps| > 0 {
      match ps[0]
      case Plain(_) =>
        assert Links(ps) == Links(ps[1..]);
        SubstituteResolves(st, ps[1..]);
      case Inline(l) =>
        SubstituteResolves(Step(st, l), ps[1..]);
        ResolveAllCons(st, l, Links(ps[1..]));
    }
  }

  /**
   * Rewriting from the leftmost match on: the text before it, the reference
   * `link_replacer` returns for its link, and the rest rewritten with the
   * registry as that call left it.
   */
  lemma SubstituteNext(st: State, s: string, from: nat, m: Match, after: nat)
    requires from <= |s| && NextMatch(s, from) == Some(m) && after == m.close + 1
    ensures
      var l := LinkOf(s, m);
      var r := Substitute(Step(st, l), Tokenize(s, after));
      && Substitute(st, Tokenize(s, from)).text == s[from..m.open] + (Marker(Step(st, l).linkToFootId[l]) + r.text)
      && Substitute(st, Tokenize(s, from)).registry == r.registry
  {
    var l := LinkOf(s, m);
    var rest := Tokenize(s, after);
    var ps := Tokenize(s, from);
    assert ps == [Plain(s[from..m.open]), Inline(l)] + rest;
    assert ps[0] == Plain(s[from..m.open]) && ps[1..][0] == Inline(l);
    assert ps[1..][1..] == rest;
  }

  /**
   * The converter's `re.sub(r"\[(.*?)\]\((.*?)\)", link_replacer, content)`:
   * scan for the leftmost match from where the last one ended, copy the text
   * before it, let the registry replace the link, and go on after the match.
   */
  method RewriteLinks(reg: IdentityRegistry, content: string) returns (out: string)
    requires reg.Valid()
    modifies reg
    ensures reg.Valid()
    ensures reg.Model() == Substitute(old(reg.Model()), Tokenize(content, 0)).registry
    ensures out == Substitute(old(reg.Model()), Tokenize(content, 0)).text
  {
    ghost var whole := Substitute(reg.Model(), Tokenize(content, 0));
    var pos := 0;
    out := [];
    while true
      invariant reg.Valid()
      invariant pos <= |content|
      invariant out + Substitute(reg.Model(), Tokenize(content, pos)).text == whole.text
      invariant Substitute(reg.Model(), Tokenize(content, pos)).registry == whole.registry
      decreases |content| - pos
    {
      var next := NextMatch(content, pos);
      if next.None? {
        NoLinksAfter(reg.Model(), content, pos);
        out := out + content[pos..];
        break;
      }
      var m := next.value;
      var l, after := LinkOf(content, m), m.close + 1;
      SubstituteNext(reg.Model(), content, pos, m, after);
      var marker := reg.ReplaceLink(l);
      ghost var rest := Substitute(reg.Model(), Tokenize(content, after)).text;
      AppendAssoc(out + content[pos..m.open], marker, rest);
      AppendAssoc(out, content[pos..m.open], marker + rest);
      out, pos := out + content[pos..m.open] + marker, after;
    }
  }

  /** Text with no link left in it is copied unchanged, and the registry with it. */
  lemma NoLinksAfter(st: State, s: string, from: nat)
    requires from <= |s| && NextMatch(s, from).None?
    ensures Substitute(st, Tokenize(s, from)) == Rewriting(s[from..], st)
  {
    var ps := Tokenize(s, from);
    assert ps == [Plain(s[from..])] && ps[1..] == [];
  }
}
