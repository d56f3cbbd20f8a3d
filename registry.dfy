/**
 * The identity registry of markdown-qr: every distinct (link text, URL) pair
 * gets a footnote number, every distinct URL gets a QR code reference number,
 * and a QR code image is generated once per URL, the first time it is seen.
 *
 * `State` and `Step` describe the registry as a value; the class
 * `IdentityRegistry` is the registry the converter updates in place, and its
 * `ReplaceLink` is proved to perform exactly `Step`.
 */
module Registry {
  import opened LinkPattern
  import opened Format

  /** The QR code image `qr_codes/qr_<ref>.png`, which encodes `url`. */
  datatype QrCode = QrCode(url: string, ref: nat)

  datatype State = State(
    linkToFootId: map<Link, nat>,
    footIdToData: map<nat, Link>,
    urlToRef: map<string, nat>,
    footCounter: nat,
    refCounter: nat,
    generated: seq<QrCode>)

  /** Both counters start at 1; nothing is registered and no image exists. */
  const Initial := State(map[], map[], map[], 1, 1, [])

  /** The footnote numbers in use are exactly 1 .. footCounter - 1. */
  ghost predicate FootnotesNumbered(linkToFootId: map<Link, nat>, footIdToData: map<nat, Link>, footCounter: nat) {
    && footCounter >= 1
    && (forall id :: id in footIdToData <==> 1 <= id < footCounter)
    && |footIdToData| == footCounter - 1
    && |linkToFootId| == footCounter - 1
  }

  /** The two footnote maps are inverse to each other. */
  ghost predicate FootnotesInverse(linkToFootId: map<Link, nat>, footIdToData: map<nat, Link>) {
    && (forall l :: l in linkToFootId ==>
          linkToFootId[l] in footIdToData && footIdToData[linkToFootId[l]] == l)
    && (forall id :: id in footIdToData ==>
          footIdToData[id] in linkToFootId && linkToFootId[footIdToData[id]] == id)
  }

  /**
   * The reference numbers in use are exactly 1 .. refCounter - 1, and image
   * number r (counting from 1) was generated for the URL whose reference is r.
   */
  ghost predicate RefsNumbered(urlToRef: map<string, nat>, refCounter: nat, generated: seq<QrCode>) {
    && refCounter >= 1
    && |generated| == refCounter - 1
    && |urlToRef| == refCounter - 1
    && RefsMatchImages(urlToRef, generated)
  }

  /** Image i (from 0) has reference i + 1, and the URLs with references are exactly the images' URLs. */
  ghost predicate RefsMatchImages(urlToRef: map<string, nat>, generated: seq<QrCode>) {
    ImagesHaveRefs(urlToRef, generated) && RefsHaveImages(urlToRef, generated)
  }

  ghost predicate ImagesHaveRefs(urlToRef: map<string, nat>, generated: seq<QrCode>) {
    forall i :: 0 <= i < |generated| ==>
      && generated[i].ref == i + 1
      && generated[i].url in urlToRef
      && urlToRef[generated[i].url] == i + 1
  }

  ghost predicate RefsHaveImages(urlToRef: map<string, nat>, generated: seq<QrCode>) {
    forall u :: u in urlToRef ==> 1 <= urlToRef[u] <= |generated| && generated[urlToRef[u] - 1].url == u
  }

  /** Every footnote's URL has a QR code reference. */
  ghost predicate FootnoteUrlsHaveRefs(footIdToData: map<nat, Link>, urlToRef: map<string, nat>) {
    forall id :: id in footIdToData ==> footIdToData[id].url in urlToRef
  }

  ghost predicate Inv(st: State) {
    && FootnotesNumbered(st.linkToFootId, st.footIdToData, st.footCounter)
    && FootnotesInverse(st.linkToFootId, st.footIdToData)
    && RefsNumbered(st.urlToRef, st.refCounter, st.generated)
    && FootnoteUrlsHaveRefs(st.footIdToData, st.urlToRef)
    && st.refCounter <= st.footCounter
  }

  /**
   * What `link_replacer` does to the registry for one matched link: a pair
   * not seen before gets the next footnote number, and a URL not seen before
   * gets the next reference number and its QR code image.
   */
  function Step(st: State, l: Link): (r: State)
    ensures l in r.linkToFootId && l.url in r.urlToRef
  {
    var newPair, newUrl := l !in st.linkToFootId, l.url !in st.urlToRef;
    State(
      if newPair then st.linkToFootId[l := st.footCounter] else st.linkToFootId,
      if newPair then st.footIdToData[st.footCounter := l] else st.footIdToData,
      if newUrl then st.urlToRef[l.url := st.refCounter] else st.urlToRef,
      if newPair then st.footCounter + 1 else st.footCounter,
      if newUrl then st.refCounter + 1 else st.refCounter,
      if newUrl then st.generated + [QrCode(l.url, st.refCounter)] else st.generated)
  }

  /**
   * The registry after the links of a document, in order. Each link adds at
   * most one footnote and at most one image, and images are only appended.
   */
  function ResolveAll(st: State, links: seq<Link>): (r: State)
    ensures st.footCounter <= r.footCounter <= st.footCounter + |links|
    ensures st.generated <= r.generated && |r.generated| <= |st.generated| + |links|
  {
    if |links| == 0 then st
    else Step(ResolveAll(st, links[..|links| - 1]), links[|links| - 1])
  }

  lemma InitialInv()
    ensures Inv(Initial)
  {
  }

  /** Registering a new pair under the next number keeps the footnote maps numbered and inverse. */
  lemma AddFootnoteKeeps(linkToFootId: map<Link, nat>, footIdToData: map<nat, Link>, n: nat, l: Link)
    requires FootnotesNumbered(linkToFootId, footIdToData, n) && FootnotesInverse(linkToFootId, footIdToData)
    requires l !in linkToFootId
    ensures FootnotesNumbered(linkToFootId[l := n], footIdToData[n := l], n + 1)
    ensures FootnotesInverse(linkToFootId[l := n], footIdToData[n := l])
  {
    assert n !in footIdToData;
    var lf, fd := linkToFootId[l := n], footIdToData[n := l];
    forall l' | l' in lf ensures lf[l'] in fd && fd[lf[l']] == l' {
      if l' != l {
        assert linkToFootId[l'] < n;
      }
    }
  }

  /** Giving a new URL the next reference number and generating its image keeps the references numbered. */
  lemma AddRefKeeps(urlToRef: map<string, nat>, n: nat, generated: seq<QrCode>, u: string)
    requires RefsNumbered(urlToRef, n, generated)
    requires u !in urlToRef
    ensures RefsNumbered(urlToRef[u := n], n + 1, generated + [QrCode(u, n)])
  {
    AddImageKeeps(urlToRef, generated, u);
  }

  lemma AddImageKeeps(urlToRef: map<string, nat>, generated: seq<QrCode>, u: string)
    requires RefsMatchImages(urlToRef, generated)
    requires u !in urlToRef
    ensures RefsMatchImages(urlToRef[u := |generated| + 1], generated + [QrCode(u, |generated| + 1)])
  {
    AddImageKeepsImages(urlToRef, generated, u);
    AddImageKeepsRefs(urlToRef, generated, u);
  }

  lemma AddImageKeepsImages(urlToRef: map<string, nat>, generated: seq<QrCode>, u: string)
    requires ImagesHaveRefs(urlToRef, generated)
    requires u !in urlToRef
    ensures ImagesHaveRefs(urlToRef[u := |generated| + 1], generated + [QrCode(u, |generated| + 1)])
  {
    var n := |generated| + 1;
    var ur, g := urlToRef[u := n], generated + [QrCode(u, n)];
    forall i | 0 <= i < |g| ensures g[i].ref == i + 1 && g[i].url in ur && ur[g[i].url] == i + 1 {
      if i < |generated| {
        assert g[i] == generated[i];
      }
    }
  }

  lemma AddImageKeepsRefs(urlToRef: map<string, nat>, generated: seq<QrCode>, u: string)
    requires RefsHaveImages(urlToRef, generated)
    ensures RefsHaveImages(urlToRef[u := |generated| + 1], generated + [QrCode(u, |generated| + 1)])
  {
    var n := |generated| + 1;
    var ur, g := urlToRef[u := n], generated + [QrCode(u, n)];
    forall u' | u' in ur ensures 1 <= ur[u'] <= |g| && g[ur[u'] - 1].url == u' {
      if u' != u {
        assert g[ur[u'] - 1] == generated[urlToRef[u'] - 1];
      }
    }
  }

  lemma UrlsHaveRefsKept(footIdToData: map<nat, Link>, urlToRef: map<string, nat>, footIdToData': map<nat, Link>, urlToRef': map<string, nat>, n: nat, l: Link)
    requires FootnoteUrlsHaveRefs(footIdToData, urlToRef)
    requires urlToRef.Keys <= urlToRef'.Keys && l.url in urlToRef'
    requires footIdToData' == footIdToData || footIdToData' == footIdToData[n := l]
    ensures FootnoteUrlsHaveRefs(footIdToData', urlToRef')
  {
  }

  lemma StepKeepsFootnotes(st: State, l: Link)
    requires FootnotesNumbered(st.linkToFootId, st.footIdToData, st.footCounter)
    requires FootnotesInverse(st.linkToFootId, st.footIdToData)
    ensures var r := Step(st, l);
      FootnotesNumbered(r.linkToFootId, r.footIdToData, r.footCounter) && FootnotesInverse(r.linkToFootId, r.footIdToData)
  {
    if l !in st.linkToFootId {
      AddFootnoteKeeps(st.linkToFootId, st.footIdToData, st.footCounter, l);
    }
  }

  lemma StepKeepsRefs(st: State, l: Link)
    requires RefsNumbered(st.urlToRef, st.refCounter, st.generated)
    ensures var r := Step(st, l); RefsNumbered(r.urlToRef, r.refCounter, r.generated)
  {
    if l.url !in st.urlToRef {
      AddRefKeeps(st.urlToRef, st.refCounter, st.generated, l.url);
    }
  }

  /** A pair already seen has a footnote, so its URL has a reference. */
  lemma SeenPairHasRef(st: State, l: Link)
    requires FootnotesInverse(st.linkToFootId, st.footIdToData)
    requires FootnoteUrlsHaveRefs(st.footIdToData, st.urlToRef)
    requires l in st.linkToFootId
    ensures l.url in st.urlToRef
  {
    var id := st.linkToFootId[l];
    assert id in st.footIdToData && st.footIdToData[id] == l;
  }

  /** The registry's invariant holds after every link. */
  lemma StepKeepsInv(st: State, l: Link)
    requires Inv(st)
    ensures Inv(Step(st, l))
  {
    var r := Step(st, l);
    StepKeepsFootnotes(st, l);
    StepKeepsRefs(st, l);
    if l in st.linkToFootId {
      SeenPairHasRef(st, l);
    }
    UrlsHaveRefsKept(st.footIdToData, st.urlToRef, r.footIdToData, r.urlToRef, st.footCounter, l);
  }

  /** A pair seen before changes nothing at all: it has a number and its URL has a reference. */
  lemma RepeatedPairChangesNothing(st: State, l: Link)
    requires Inv(st) && l in st.linkToFootId
    ensures Step(st, l) == st
  {
    var id := st.linkToFootId[l];
    assert id in st.footIdToData && st.footIdToData[id] == l;
  }

  /** Replacing the same link twice in a row is the same as replacing it once. */
  lemma StepIdempotent(st: State, l: Link)
    requires Inv(st)
    ensures Step(Step(st, l), l) == Step(st, l)
  {
    StepKeepsInv(st, l);
    RepeatedPairChangesNothing(Step(st, l), l);
  }

  /** The registry only grows: numbers once given are never changed or taken back. */
  ghost predicate Extends(st: State, st': State) {
    && (forall l :: l in st.linkToFootId ==> l in st'.linkToFootId && st'.linkToFootId[l] == st.linkToFootId[l])
    && (forall id :: id in st.footIdToData ==> id in st'.footIdToData && st'.footIdToData[id] == st.footIdToData[id])
    && (forall u :: u in st.urlToRef ==> u in st'.urlToRef && st'.urlToRef[u] == st.urlToRef[u])
    && st.generated <= st'.generated
  }

  /** A new pair gets the current footnote counter; every earlier number stays as it was. */
  lemma NewPairGetsCounter(st: State, l: Link)
    requires Inv(st) && l !in st.linkToFootId
    ensures Step(st, l).linkToFootId[l] == st.footCounter
    ensures Step(st, l).footIdToData[st.footCounter] == l
    ensures Step(st, l).footCounter == st.footCounter + 1
    ensures Extends(st, Step(st, l))
  {
    var n := st.footCounter;
    assert n !in st.footIdToData;
    var r := Step(st, l);
    assert r.linkToFootId == st.linkToFootId[l := n] && r.footIdToData == st.footIdToData[n := l];
  }

  /**
   * A new URL gets the current reference counter and exactly one QR code
   * image, with that same reference; a URL seen before gets no image.
   */
  lemma NewUrlGetsCounter(st: State, l: Link)
    requires Inv(st)
    ensures l.url !in st.urlToRef ==>
      && Step(st, l).urlToRef[l.url] == st.refCounter
      && Step(st, l).generated == st.generated + [QrCode(l.url, st.refCounter)]
      && Step(st, l).refCounter == st.refCounter + 1
    ensures l.url in st.urlToRef ==> Step(st, l).generated == st.generated && Step(st, l).urlToRef == st.urlToRef
  {
  }

  lemma StepExtends(st: State, l: Link)
    requires Inv(st)
    ensures Extends(st, Step(st, l))
  {
    if l in st.linkToFootId {
      RepeatedPairChangesNothing(st, l);
    } else {
      NewPairGetsCounter(st, l);
    }
  }

  /**
   * Two links with the same URL and different texts get two footnote numbers
   * but share one QR code: at most one image is generated for the two.
   */
  lemma SharedUrl(st: State, a: Link, b: Link)
    requires Inv(st) && a.url == b.url && a.text != b.text
    ensures var st2 := Step(Step(st, a), b);
      && st2.linkToFootId[a] != st2.linkToFootId[b]
      && |st2.generated| <= |st.generated| + 1
  {
    StepKeepsInv(st, a);
    var st1 := Step(st, a);
    StepExtends(st1, b);
    StepKeepsInv(st1, b);
    var st2 := Step(st1, b);
    assert st2.footIdToData[st2.linkToFootId[a]] == a;
  }

  /** The registry after a whole document still satisfies the invariant. */
  lemma {:induction false} ResolveAllKeepsInv(st: State, links: seq<Link>)
    requires Inv(st)
    ensures Inv(ResolveAll(st, links))
  {
    if |links| > 0 {
      ResolveAllKeepsInv(st, links[..|links| - 1]);
      StepKeepsInv(ResolveAll(st, links[..|links| - 1]), links[|links| - 1]);
    }
  }

  /** The elements of xs without repetitions, each where it first occurs. */
  function Dedup<T(==,!new)>(xs: seq<T>): (d: seq<T>)
    ensures forall x :: x in d <==> x in xs
  {
    if |xs| == 0 then []
    else
      var d := Dedup(xs[..|xs| - 1]);
      if xs[|xs| - 1] in d then d else d + [xs[|xs| - 1]]
  }

  /** No element occurs twice in Dedup(xs). */
  lemma {:induction false} DedupDistinct<T(!new)>(xs: seq<T>)
    ensures forall i, j :: 0 <= i < j < |Dedup(xs)| ==> Dedup(xs)[i] != Dedup(xs)[j]
  {
    if |xs| > 0 {
      DedupDistinct(xs[..|xs| - 1]);
    }
  }

  lemma UrlsIndex(links: seq<Link>)
    ensures |Urls(links)| == |links|
    ensures forall i :: 0 <= i < |links| ==> Urls(links)[i] == links[i].url
  {
  }

  /** The URL of each link, in order. */
  function Urls(links: seq<Link>): seq<string>
  {
    if |links| == 0 then [] else Urls(links[..|links| - 1]) + [links[|links| - 1].url]
  }

  /** The footnote maps number the distinct pairs of `links` in first-occurrence order. */
  ghost predicate FootnotesFollow(st: State, links: seq<Link>) {
    && (forall l :: l in st.linkToFootId <==> l in links)
    && st.footCounter == |Dedup(links)| + 1
    && NumberedInOrder(st.footIdToData, Dedup(links))
  }

  /** Footnote id holds the id-th element of `pairs`, counting from 1. */
  ghost predicate NumberedInOrder(footIdToData: map<nat, Link>, pairs: seq<Link>) {
    forall id :: 1 <= id <= |pairs| ==> id in footIdToData && footIdToData[id] == pairs[id - 1]
  }

  /** The generated images are one per distinct URL of `links`, in first-occurrence order. */
  ghost predicate QrCodesFollow(st: State, links: seq<Link>) {
    && (forall u :: u in st.urlToRef <==> u in Urls(links))
    && st.refCounter == |st.generated| + 1
    && |st.generated| == |Dedup(Urls(links))|
    && ImagesInOrder(st.generated, Dedup(Urls(links)))
  }

  /** Image i is the QR code of the i-th element of `urls`, with reference i + 1. */
  ghost predicate ImagesInOrder(generated: seq<QrCode>, urls: seq<string>) {
    forall i :: 0 <= i < |generated| && i < |urls| ==> generated[i] == QrCode(urls[i], i + 1)
  }

  lemma DedupSnoc<T(!new)>(xs: seq<T>, x: T)
    ensures Dedup(xs + [x]) == if x in xs then Dedup(xs) else Dedup(xs) + [x]
  {
    assert (xs + [x])[..|xs|] == xs;
  }

  lemma NumberedInOrderSnoc(footIdToData: map<nat, Link>, pairs: seq<Link>, l: Link)
    requires NumberedInOrder(footIdToData, pairs)
    ensures NumberedInOrder(footIdToData[|pairs| + 1 := l], pairs + [l])
  {
    var fd, ps := footIdToData[|pairs| + 1 := l], pairs + [l];
    forall id | 1 <= id <= |ps| ensures id in fd && fd[id] == ps[id - 1] {
      if id <= |pairs| {
        assert ps[id - 1] == pairs[id - 1];
      }
    }
  }

  lemma ImagesInOrderSnoc(generated: seq<QrCode>, urls: seq<string>, u: string)
    requires ImagesInOrder(generated, urls) && |generated| == |urls|
    ensures ImagesInOrder(generated + [QrCode(u, |generated| + 1)], urls + [u])
  {
    var g, us := generated + [QrCode(u, |generated| + 1)], urls + [u];
    forall i | 0 <= i < |g| && i < |us| ensures g[i] == QrCode(us[i], i + 1) {
      if i < |generated| {
        assert g[i] == generated[i] && us[i] == urls[i];
      }
    }
  }

  lemma FootnotesFollowStep(st: State, links: seq<Link>)
    requires |links| > 0 && FootnotesFollow(st, links[..|links| - 1])
    ensures FootnotesFollow(Step(st, links[|links| - 1]), links)
  {
    var prev, l := links[..|links| - 1], links[|links| - 1];
    assert forall y :: y in links <==> y in prev || y == l by {
      assert links == prev + [l];
    }
    if l !in prev {
      NumberedInOrderSnoc(st.footIdToData, Dedup(prev), l);
    }
  }

  lemma QrCodesFollowStep(st: State, links: seq<Link>)
    requires |links| > 0 && QrCodesFollow(st, links[..|links| - 1])
    ensures QrCodesFollow(Step(st, links[|links| - 1]), links)
  {
    var us, l := Urls(links[..|links| - 1]), links[|links| - 1];
    DedupSnoc(us, l.url);
    if l.url !in us {
      ImagesInOrderSnoc(st.generated, Dedup(us), l.url);
    }
  }

  /**
   * From the empty registry, the footnote numbers 1, 2, ... go to the distinct
   * (text, URL) pairs in the order they first occur in the document.
   */
  lemma {:induction false} FootnotesInFirstOccurrenceOrder(links: seq<Link>)
    ensures FootnotesFollow(ResolveAll(Initial, links), links)
  {
    if |links| > 0 {
      FootnotesInFirstOccurrenceOrder(links[..|links| - 1]);
      FootnotesFollowStep(ResolveAll(Initial, links[..|links| - 1]), links);
    }
  }

  /**
   * From the empty registry, exactly one QR code image is generated per
   * distinct URL, in the order the URLs first occur, numbered from 1.
   */
  lemma {:induction false} QrCodesInFirstOccurrenceOrder(links: seq<Link>)
    ensures QrCodesFollow(ResolveAll(Initial, links), links)
  {
    if |links| > 0 {
      QrCodesInFirstOccurrenceOrder(links[..|links| - 1]);
      QrCodesFollowStep(ResolveAll(Initial, links[..|links| - 1]), links);
    }
  }

  /** There are never more QR codes than footnotes. */
  lemma FewerQrCodesThanFootnotes(links: seq<Link>)
    ensures |Dedup(Urls(links))| <= |Dedup(links)|
  {
    InitialInv();
    ResolveAllKeepsInv(Initial, links);
    FootnotesInFirstOccurrenceOrder(links);
    QrCodesInFirstOccurrenceOrder(links);
  }

  /**
   * The footnote reference `[^id]` that replaces a link in the text: between
   * `[^` and `]` stands the decimal text of `id`.
   */
  function Marker(id: nat): (r: string)
    ensures |r| >= 4 && r[..2] == "[^" && r[|r| - 1] == ']'
    ensures AllDigits(r[2..|r| - 1]) && DecimalValue(r[2..|r| - 1]) == id
  {
    var m := ['[', '^'] + NatToString(id) + [']'];
    assert m[2..|m| - 1] == NatToString(id);
    DecimalValueOfNatToString(id);
    m
  }

  /** Different footnote numbers give different references in the text. */
  lemma MarkerInjective(a: nat, b: nat)
    requires Marker(a) == Marker(b)
    ensures a == b
  {
    var ma, mb := Marker(a), Marker(b);
    assert ma[2..|ma| - 1] == NatToString(a);
    assert mb[2..|mb| - 1] == NatToString(b);
    NatToStringInjective(a, b);
  }

  /**
   * The registry as the converter keeps it: the three dictionaries and two
   * counters, plus the QR code images written so far, in the order written.
   */
  class IdentityRegistry {
    var linkToFootId: map<Link, nat>
    var footIdToData: map<nat, Link>
    var urlToRef: map<string, nat>
    var footCounter: nat
    var refCounter: nat
    var generated: seq<QrCode>

    ghost function Model(): State
      reads this
    {
      State(linkToFootId, footIdToData, urlToRef, footCounter, refCounter, generated)
    }

    ghost predicate Valid()
      reads this
    {
      Inv(Model())
    }

    constructor()
      ensures Model() == Initial && Valid()
    {
      linkToFootId, footIdToData, urlToRef := map[], map[], map[];
      footCounter, refCounter := 1, 1;
      generated := [];
      InitialInv();
    }

    /**
     * The registry updates of `link_replacer`: a pair without a footnote
     * number gets `foot_counter`, and a URL without a reference gets
     * `ref_counter` and its QR code image. The dictionaries, the counters and
     * the images change exactly as `Step` says.
     */
    method Register(l: Link)
      modifies this
      ensures Model() == Step(old(Model()), l)
    {
      if l !in linkToFootId {
        linkToFootId := linkToFootId[l := footCounter];
        footIdToData := footIdToData[footCounter := l];
        footCounter := footCounter + 1;
      }
      if l.url !in urlToRef {
        urlToRef := urlToRef[l.url := refCounter];
        generated := generated + [QrCode(l.url, refCounter)];
        refCounter := refCounter + 1;
      }
    }

    /**
     * `link_replacer`: registers the pair and its URL, then returns the
     * footnote reference that replaces the link. The registry stays valid.
     */
    method ReplaceLink(l: Link) returns (marker: string)
      requires Valid()
      modifies this
      ensures Valid()
      ensures Model() == Step(old(Model()), l)
      ensures marker == Marker(linkToFootId[l])
    {
      Register(l);
      StepKeepsInv(old(Model()), l);
      marker := Marker(linkToFootId[l]);
    }
  }
}
