/**
 * The one regular expression the converter uses, `\[(.*?)\]\((.*?)\)`, written
 * out by hand, and the left-to-right, non-overlapping scan that `re.sub` makes
 * with it.
 *
 * `.` does not match a newline, so neither group may contain '\n'; both groups
 * are lazy, so among all the ways the pattern can match at one position the
 * backtracking engine takes the one with the shortest link text and, for that
 * text, the shortest URL.
 */
module LinkPattern {

  datatype Option<T> = None | Some(value: T)

  /** The two groups of one match: the link text and the URL. */
  datatype Link = Link(text: string, url: string)

  /**
   * One match in a string: '[' at `open`, the "](" separator at `mid`, and the
   * closing ')' at `close`. The matched span is s[open..close + 1].
   */
  datatype Match = Match(open: nat, mid: nat, close: nat)

  /** s has the character c at index k. */
  predicate CharAt(s: string, k: int, c: char) {
    0 <= k < |s| && s[k] == c
  }

  /** No newline in s[lo..hi]. */
  predicate NoNewline(s: string, lo: int, hi: int) {
    forall k :: lo <= k < hi ==> !CharAt(s, k, '\n')
  }

  predicate SeparatorAt(s: string, j: int) {
    CharAt(s, j, ']') && CharAt(s, j + 1, '(')
  }

  /** The literal characters of the pattern sit at m's positions, in order. */
  predicate Framed(s: string, m: Match) {
    && m.open < m.mid
    && m.mid + 2 <= m.close < |s|
    && CharAt(s, m.open, '[')
    && SeparatorAt(s, m.mid)
    && CharAt(s, m.close, ')')
  }

  /** m is one of the ways the pattern can match s, leaving laziness aside. */
  predicate IsMatch(s: string, m: Match) {
    && Framed(s, m)
    && NoNewline(s, m.open + 1, m.mid)
    && NoNewline(s, m.mid + 2, m.close)
  }

  /** Lazy backtracking tries m no later than m2: shorter text first, then shorter URL. */
  predicate TriedNoLater(m: Match, m2: Match) {
    m.mid < m2.mid || (m.mid == m2.mid && m.close <= m2.close)
  }

  /** The first "](" at or after i, provided no newline comes before it. */
  function FindSeparator(s: string, i: nat): (r: Option<nat>)
    requires i <= |s|
    ensures r.Some? ==> i <= r.value && SeparatorAt(s, r.value) && NoNewline(s, i, r.value)
    ensures r.Some? ==> forall j :: i <= j < r.value ==> !SeparatorAt(s, j)
    ensures r.None? ==> forall j :: i <= j && SeparatorAt(s, j) ==> !NoNewline(s, i, j)
    decreases |s| - i
  {
    if i + 1 >= |s| then None
    else if s[i] == '\n' then assert CharAt(s, i, '\n'); None
    else if SeparatorAt(s, i) then Some(i)
    else FindSeparator(s, i + 1)
  }

  /** The first ')' at or after i, provided no newline comes before it. */
  function FindClose(s: string, i: nat): (r: Option<nat>)
    requires i <= |s|
    ensures r.Some? ==> i <= r.value && CharAt(s, r.value, ')') && NoNewline(s, i, r.value)
    ensures r.Some? ==> forall k :: i <= k < r.value ==> !CharAt(s, k, ')')
    ensures r.None? ==> forall k :: i <= k && CharAt(s, k, ')') ==> !NoNewline(s, i, k)
    decreases |s| - i
  {
    if i >= |s| then None
    else if s[i] == '\n' then assert CharAt(s, i, '\n'); None
    else if s[i] == ')' then Some(i)
    else FindClose(s, i + 1)
  }

  /** The match the regex engine reports when it tries position p. */
  function MatchAt(s: string, p: nat): (r: Option<Match>)
    ensures r.Some? ==> IsMatch(s, r.value) && r.value.open == p
  {
    if p < |s| && s[p] == '[' then
      match FindSeparator(s, p + 1)
      case None => None
      case Some(j) =>
        match FindClose(s, j + 2)
        case None => None
        case Some(k) => Some(Match(p, j, k))
    else None
  }

  /**
   * MatchAt is exactly what lazy backtracking finds: there is a match at p if
   * and only if the pattern can match at p at all, and then it is the one tried
   * first. (A later "](" never helps: its URL would have to end before the same
   * newline that stopped the URL after the first one.)
   */
  lemma MatchAtIsFirstTried(s: string, m: Match)
    requires IsMatch(s, m)
    ensures MatchAt(s, m.open).Some?
    ensures TriedNoLater(MatchAt(s, m.open).value, m)
  {
    var p := m.open;
    assert NoNewline(s, p + 1, m.mid);
    var j := FindSeparator(s, p + 1).value;
    assert j <= m.mid;
    assert NoNewline(s, j + 2, m.close) by {
      forall k | j + 2 <= k < m.close ensures !CharAt(s, k, '\n') {
        if k < m.mid {
          assert p + 1 <= k;
        }
      }
    }
  }

  /** The leftmost match starting at or after `from`: where `re.sub` resumes its scan. */
  function NextMatch(s: string, from: nat): (r: Option<Match>)
    requires from <= |s|
    ensures r.Some? ==> from <= r.value.open && Framed(s, r.value)
    decreases |s| - from
  {
    if from == |s| then None
    else
      match MatchAt(s, from)
      case Some(m) => Some(m)
      case None => NextMatch(s, from + 1)
  }

  /**
   * NextMatch reports the match at the leftmost position where the engine
   * finds one, and none at all when no position from `from` on has one.
   */
  lemma {:induction false} NextMatchIsLeftmost(s: string, from: nat)
    requires from <= |s|
    ensures NextMatch(s, from).Some? ==> MatchAt(s, NextMatch(s, from).value.open) == NextMatch(s, from)
    ensures NextMatch(s, from).Some? ==> forall p :: from <= p < NextMatch(s, from).value.open ==> MatchAt(s, p).None?
    ensures NextMatch(s, from).None? ==> forall p :: from <= p < |s| ==> MatchAt(s, p).None?
    decreases |s| - from
  {
    if from < |s| && MatchAt(s, from).None? {
      NextMatchIsLeftmost(s, from + 1);
      var r := NextMatch(s, from);
      assert r == NextMatch(s, from + 1);
      if r.Some? {
        forall p | from <= p < r.value.open ensures MatchAt(s, p).None? {
          if p > from { assert from + 1 <= p; }
        }
      } else {
        forall p | from <= p < |s| ensures MatchAt(s, p).None? {
          if p > from { assert from + 1 <= p; }
        }
      }
    }
  }

  /**
   * No link is skipped: wherever the pattern can match at or after `from`,
   * the scan reports a match that starts there or earlier.
   */
  lemma NextMatchMissesNothing(s: string, from: nat, m: Match)
    requires from <= m.open && IsMatch(s, m)
    ensures NextMatch(s, from).Some?
    ensures NextMatch(s, from).value.open <= m.open
  {
    MatchAtIsFirstTried(s, m);
    NextMatchIsLeftmost(s, from);
  }

  /** The pieces of a document: text copied as it is, and the links the scan finds. */
  datatype Piece = Plain(chars: string) | Inline(link: Link)

  /** The text a piece stands for in the document. */
  function SourceOf(p: Piece): string {
    match p
    case Plain(chars) => chars
    case Inline(link) => Spelled(link.text, link.url)
  }

  function Source(ps: seq<Piece>): string {
    if |ps| == 0 then [] else SourceOf(ps[0]) + Source(ps[1..])
  }

  /** Plain text and links alternate, with plain text (possibly empty) first and last. */
  predicate Alternating(ps: seq<Piece>) {
    && |ps| >= 1
    && ps[0].Plain?
    && (|ps| == 1 || (|ps| >= 3 && ps[1].Inline? && Alternating(ps[2..])))
  }

  /** The links of a piece sequence, in document order. */
  function Links(ps: seq<Piece>): seq<Link> {
    if |ps| == 0 then []
    else (if ps[0].Inline? then [ps[0].link] else []) + Links(ps[1..])
  }

  /** The link a match captures: group 1 is the text, group 2 the URL. */
  function LinkOf(s: string, m: Match): Link
    requires Framed(s, m)
  {
    Link(s[m.open + 1..m.mid], s[m.mid + 2..m.close])
  }

  /** The characters a matched link stands for. */
  function Spelled(text: string, url: string): string {
    ['['] + text + [']', '('] + url + [')']
  }

  /** The matched span is '[', the text, "](", the URL and ')'. */
  lemma SpanOfMatch(s: string, open: nat, mid: nat, close: nat)
    requires open < mid && mid + 2 <= close < |s|
    requires s[open] == '[' && s[mid] == ']' && s[mid + 1] == '(' && s[close] == ')'
    ensures Spelled(s[open + 1..mid], s[mid + 2..close]) == s[open..close + 1]
  {
    var text, url := s[open + 1..mid], s[mid + 2..close];
    var a := ['['] + text;
    var b := a + [']', '('];
    var c := b + url;
    var d := c + [')'];
    forall i | 0 <= i < |a| ensures a[i] == s[open + i] {
      if i > 0 { assert a[i] == text[i - 1]; }
    }
    forall i | 0 <= i < |b| ensures b[i] == s[open + i] {
      if i < |a| { assert b[i] == a[i]; }
    }
    forall i | 0 <= i < |c| ensures c[i] == s[open + i] {
      if i < |b| { assert c[i] == b[i]; } else { assert c[i] == url[i - |b|]; }
    }
    forall i | 0 <= i < |d| ensures d[i] == s[open + i] {
      if i < |c| { assert d[i] == c[i]; }
    }
    assert d == s[open..close + 1];
  }

  lemma SliceSplit(s: string, a: nat, b: nat, c: nat)
    requires a <= b <= c <= |s|
    ensures s[a..] == s[a..b] + (s[b..c] + s[c..])
  {
    var tail := s[b..c] + s[c..];
    forall i | 0 <= i < |tail| ensures tail[i] == s[b + i] {
      if i < c - b { assert tail[i] == s[b..c][i]; } else { assert tail[i] == s[c..][i - (c - b)]; }
    }
    var whole := s[a..b] + tail;
    forall i | 0 <= i < |whole| ensures whole[i] == s[a + i] {
      if i < b - a { assert whole[i] == s[a..b][i]; } else { assert whole[i] == tail[i - (b - a)]; }
    }
    assert whole == s[a..];
  }

  /** The document from `from` on is the text before a match, the match, and what follows it. */
  lemma SplitAtMatch(s: string, from: nat, m: Match)
    requires from <= m.open && Framed(s, m)
    ensures s[from..] == s[from..m.open] + (Spelled(LinkOf(s, m).text, LinkOf(s, m).url) + s[m.close + 1..])
  {
    SpanOfMatch(s, m.open, m.mid, m.close);
    SliceSplit(s, from, m.open, m.close + 1);
  }

  lemma SourceCons(p: Piece, rest: seq<Piece>)
    ensures Source([p] + rest) == SourceOf(p) + Source(rest)
  {
    var ps := [p] + rest;
    forall i | 0 <= i < |rest| ensures ps[1..][i] == rest[i] {
    }
    assert ps[1..] == rest;
  }

  lemma SourceOfTail(s: string, from: nat, ps: seq<Piece>)
    requires from <= |s| && ps == [Plain(s[from..])]
    ensures Source(ps) == s[from..]
  {
    assert |ps[1..]| == 0;
  }

  /** Plain text, then a link, then more pieces. */
  lemma SourceOfCut(gap: string, l: Link, rest: seq<Piece>, ps: seq<Piece>)
    requires ps == [Plain(gap), Inline(l)] + rest
    ensures Source(ps) == gap + (Spelled(l.text, l.url) + Source(rest))
  {
    var link := Inline(l);
    SourceCons(link, rest);
    SourceCons(Plain(gap), [link] + rest);
    var cut := [Plain(gap)] + ([link] + rest);
    forall i | 0 <= i < |ps| ensures ps[i] == cut[i] {
      if i >= 2 { assert ps[i] == rest[i - 2] && cut[i] == ([link] + rest)[i - 1]; }
    }
    assert ps == cut;
  }

  /** Text, then a match, then pieces that spell out what follows the match, spell out the document. */
  lemma CutSpellsOut(s: string, from: nat, m: Match, rest: seq<Piece>, ps: seq<Piece>)
    requires from <= m.open && Framed(s, m)
    requires Source(rest) == s[m.close + 1..]
    requires ps == [Plain(s[from..m.open]), Inline(LinkOf(s, m))] + rest
    ensures Source(ps) == s[from..]
  {
    SplitAtMatch(s, from, m);
    SourceOfCut(s[from..m.open], LinkOf(s, m), rest, ps);
  }

  /**
   * The document from `from` on, cut as `re.sub` cuts it: the text before the
   * leftmost match, the match, and the rest scanned again after the match's
   * end, so matches never overlap; plain text and links alternate.
   */
  function Tokenize(s: string, from: nat): (ps: seq<Piece>)
    requires from <= |s|
    ensures Alternating(ps)
    decreases |s| - from
  {
    match NextMatch(s, from)
    case None => [Plain(s[from..])]
    case Some(m) =>
      var rest := Tokenize(s, m.close + 1);
      var ps := [Plain(s[from..m.open]), Inline(LinkOf(s, m))] + rest;
      assert ps[2..] == rest;
      ps
  }

  /** Cutting loses and adds nothing: the pieces spell out the document again. */
  lemma {:induction false} TokenizeSpellsOut(s: string, from: nat)
    requires from <= |s|
    ensures Source(Tokenize(s, from)) == s[from..]
    decreases |s| - from
  {
    match NextMatch(s, from)
    case None =>
      SourceOfTail(s, from, Tokenize(s, from));
    case Some(m) =>
      TokenizeSpellsOut(s, m.close + 1);
      CutSpellsOut(s, from, m, Tokenize(s, m.close + 1), Tokenize(s, from));
  }
}
