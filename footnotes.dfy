/**
 * The footnote definitions the converter appends after the rewritten text:
 * one line `[^id]: text (QR code: [Qref])` per footnote, in ascending id
 * order, where `ref` is the QR code reference of the footnote's URL.
 */
module Footnotes {
  import opened LinkPattern
  import opened Format
  import opened Registry

  /** `f"[^{foot_id}]: {link_text} (QR code: [Q{qr_ref}])\n"` */
  function FootnoteLine(id: nat, text: string, ref: nat): string {
    Marker(id) + [':', ' '] + text + " (QR code: [Q" + NatToString(ref) + "])\n"
  }

  /**
   * A definition line opens with the footnote's reference and ends with a
   * line break; for a link text without a newline, which is all the pattern
   * captures, it takes up exactly one line.
   */
  lemma FootnoteLineShape(id: nat, text: string, ref: nat)
    ensures var r := FootnoteLine(id, text, ref);
      && |r| > |Marker(id)| && r[..|Marker(id)|] == Marker(id)
      && r[|r| - 1] == '\n'
      && ('\n' !in text ==> '\n' !in r[..|r| - 1])
  {
    var digits := NatToString(ref);
    var body := Marker(id) + [':', ' '] + text + " (QR code: [Q" + digits + "])";
    assert '\n' !in digits by {
      forall k | 0 <= k < |digits| ensures digits[k] != '\n' {
        assert IsDigit(digits[k]);
      }
    }
    var r := FootnoteLine(id, text, ref);
    assert r == body + "\n";
    assert r[..|r| - 1] == body;
  }

  /**
   * Every footnote number below the counter has a pair, and that pair's URL
   * has a QR code reference: the lookups of the definition loop succeed.
   */
  predicate Resolvable(st: State) {
    forall id :: 1 <= id < st.footCounter ==> id in st.footIdToData && st.footIdToData[id].url in st.urlToRef
  }

  /** The registry invariant guarantees the lookups `url_to_ref[full_url]` never fail. */
  lemma InvResolvable(st: State)
    requires Inv(st)
    ensures Resolvable(st)
  {
  }

  /** The definition line of footnote `id`. */
  function DefinitionOf(st: State, id: nat): string
    requires Resolvable(st) && 1 <= id < st.footCounter
  {
    var l := st.footIdToData[id];
    FootnoteLine(id, l.text, st.urlToRef[l.url])
  }

  /** The definition lines of footnotes `from` .. footCounter - 1, in that order. */
  function DefinitionLines(st: State, from: nat): seq<string>
    requires Resolvable(st) && 1 <= from <= st.footCounter
    decreases st.footCounter - from
  {
    if from == st.footCounter then [] else [DefinitionOf(st, from)] + DefinitionLines(st, from + 1)
  }

  /** The lines run over the footnote numbers from `from` up, one line per number. */
  lemma {:induction false} DefinitionLinesInOrder(st: State, from: nat)
    requires Resolvable(st) && 1 <= from <= st.footCounter
    ensures |DefinitionLines(st, from)| == st.footCounter - from
    ensures forall i :: 0 <= i < |DefinitionLines(st, from)| ==> DefinitionLines(st, from)[i] == DefinitionOf(st, from + i)
    decreases st.footCounter - from
  {
    if from < st.footCounter {
      DefinitionLinesInOrder(st, from + 1);
      var ls := DefinitionLines(st, from);
      forall i | 0 <= i < |ls| ensures ls[i] == DefinitionOf(st, from + i) {
        if i > 0 {
          assert ls[i] == DefinitionLines(st, from + 1)[i - 1];
        }
      }
    }
  }

  /** The footnote definition block: all definition lines, starting at footnote 1. */
  function FootnoteBlock(st: State): string
    requires Resolvable(st) && st.footCounter >= 1
  {
    Flatten(DefinitionLines(st, 1))
  }

  /**
   * Under the registry invariant the block has exactly one line per
   * registered footnote, line i (from 0) defining footnote i + 1, so the ids
   * are strictly ascending and none is missing.
   */
  lemma OneLinePerFootnote(st: State)
    requires Inv(st)
    ensures Resolvable(st)
    ensures |DefinitionLines(st, 1)| == |st.footIdToData|
    ensures forall i :: 0 <= i < |st.footIdToData| ==>
      DefinitionLines(st, 1)[i] == FootnoteLine(i + 1, st.footIdToData[i + 1].text, st.urlToRef[st.footIdToData[i + 1].url])
  {
    DefinitionLinesInOrder(st, 1);
  }

  /**
   * `sorted(footid_to_data.keys())`: a strictly ascending list holding
   * exactly the footnote numbers in use is 1, 2, ..., footCounter - 1.
   */
  lemma SortedIdsAreOneToN(st: State, ids: seq<nat>)
    requires Inv(st)
    requires forall i, j :: 0 <= i < j < |ids| ==> ids[i] < ids[j]
    requires forall id :: id in ids <==> id in st.footIdToData
    ensures |ids| == st.footCounter - 1
    ensures forall i :: 0 <= i < |ids| ==> ids[i] == i + 1
  {
    AscendingRange(ids, st.footCounter);
  }

  /** A strictly ascending list whose elements are exactly 1 .. n - 1 is [1, ..., n - 1]. */
  lemma AscendingRange(ids: seq<nat>, n: nat)
    requires n >= 1
    requires forall i, j :: 0 <= i < j < |ids| ==> ids[i] < ids[j]
    requires forall id :: id in ids <==> 1 <= id < n
    ensures |ids| == n - 1
    ensures forall i :: 0 <= i < |ids| ==> ids[i] == i + 1
  {
    // The last element is |ids| and lies below n; the number after it, if below n, would be in ids too.
    assert |ids| + 1 in ids <==> |ids| + 1 < n;
    if |ids| > 0 {
      AscendingPrefix(ids, n, |ids| - 1);
      assert ids[|ids| - 1] in ids;
    }
  }

  /** The first i + 1 elements of such a list are 1, ..., i + 1. */
  lemma {:induction false} AscendingPrefix(ids: seq<nat>, n: nat, i: nat)
    requires forall a, b :: 0 <= a < b < |ids| ==> ids[a] < ids[b]
    requires forall id :: id in ids <==> 1 <= id < n
    requires i < |ids|
    ensures forall k :: 0 <= k <= i ==> ids[k] == k + 1
  {
    if i > 0 {
      AscendingPrefix(ids, n, i - 1);
    }
    assert ids[i] in ids;
    assert i + 1 in ids by {
      if i > 0 {
        assert ids[i - 1] == i;
      }
    }
    // i + 1 sits at some index j; below i the values are too small, above i too large.
    assert exists j :: 0 <= j < |ids| && ids[j] == i + 1;
  }

  /**
   * The QR reference printed in footnote `id` is the image generated for that
   * footnote's URL, so two footnotes with one URL print the same reference.
   */
  lemma ReferenceNamesImage(st: State, id: nat)
    requires Inv(st) && id in st.footIdToData
    ensures
      var u := st.footIdToData[id].url;
      u in st.urlToRef && 1 <= st.urlToRef[u] <= |st.generated| && st.generated[st.urlToRef[u] - 1] == QrCode(u, st.urlToRef[u])
  {
    var u := st.footIdToData[id].url;
    assert u in st.urlToRef;
    var r := st.urlToRef[u];
    assert 1 <= r <= |st.generated| && st.generated[r - 1].url == u;
    assert st.generated[r - 1].ref == r;
  }

  /**
   * The definition loop: for each footnote number in ascending order, look
   * up the pair and its URL's reference and append the definition line.
   */
  method WriteFootnotes(reg: IdentityRegistry) returns (block: string)
    requires reg.Valid()
    ensures Resolvable(reg.Model())
    ensures block == FootnoteBlock(reg.Model())
  {
    ghost var st := reg.Model();
    InvResolvable(st);
    DefinitionLinesInOrder(st, 1);
    block := [];
    ghost var done: seq<string> := [];
    var id := 1;
    while id < reg.footCounter
      invariant 1 <= id <= reg.footCounter
      invariant done == DefinitionLines(st, 1)[..id - 1]
      invariant block == Flatten(done)
    {
      var l := reg.footIdToData[id];
      var ref := reg.urlToRef[l.url];
      var line := FootnoteLine(id, l.text, ref);
      assert line == DefinitionLines(st, 1)[id - 1];
      FlattenSnoc(done, line);
      done := done + [line];
      block := block + line;
      id := id + 1;
    }
    assert DefinitionLines(st, 1)[..id - 1] == DefinitionLines(st, 1);
  }
}
