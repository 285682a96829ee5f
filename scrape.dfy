/**
 * The page image extractor of app/actions/scrape.ts, over a page already parsed into its
 * elements in document order.
 */
module Scrape {
  import opened Wrappers
  import opened Text

  /** One parsed element: its tag name and its attributes. */
  datatype Element = Element(tag: string, attrs: map<string, string>)

  /** A parsed page: its elements in document order. */
  type Document = seq<Element>

  /** A selector of the form `tag[attr="value"]`. */
  datatype Selector = Selector(tag: string, attr: string, value: string)

  /** The meta and link selectors, in priority order. */
  const Selectors: seq<Selector> := [
    Selector("meta", "property", "og:image"),
    Selector("meta", "name", "twitter:image"),
    Selector("meta", "property", "og:image:secure_url"),
    Selector("link", "rel", "image_src")
  ]

  /** The outcome of fetching the page: a thrown error, or a response with its status and parsed body. */
  datatype FetchOutcome = Threw | Responded(ok: bool, page: Document)

  predicate Selects(sel: Selector, e: Element) {
    e.tag == sel.tag && sel.attr in e.attrs && e.attrs[sel.attr] == sel.value
  }

  /** `.attr(name)` on one element. */
  function Attr(e: Element, name: string): Option<string> {
    if name in e.attrs then Some(e.attrs[name]) else None
  }

  /**
   * Only the first element a selector picks is consulted: when it has no `content`, a later
   * element matching the same selector is ignored.
   */
  lemma FirstSelectedOnly(e: Element, rest: Document, sel: Selector)
    requires Selects(sel, e) && "content" !in e.attrs
    ensures SelectorContent([e] + rest, sel) == None
  {
  }

  /** A value JavaScript treats as true: present and not the empty string. */
  predicate Truthy(o: Option<string>) {
    o.Some? && o.value != ""
  }

  /**
   * `$(sel).attr('content')`: the `content` attribute of the FIRST element the selector picks,
   * so a later element matching the same selector is never consulted.
   */
  function SelectorContent(doc: Document, sel: Selector): Option<string> {
    if doc == [] then None
    else if Selects(sel, doc[0]) then Attr(doc[0], "content")
    else SelectorContent(doc[1..], sel)
  }

  /** A selector's `content` is the `content` attribute of some element the selector picks. */
  lemma {:induction false} SelectorContentFound(doc: Document, sel: Selector)
    requires SelectorContent(doc, sel).Some?
    ensures exists i :: 0 <= i < |doc| && Selects(sel, doc[i]) && Attr(doc[i], "content") == SelectorContent(doc, sel)
  {
    if !Selects(sel, doc[0]) {
      SelectorContentFound(doc[1..], sel);
      var i :| 0 <= i < |doc[1..]| && Selects(sel, doc[1..][i]) && Attr(doc[1..][i], "content") == SelectorContent(doc, sel);
      assert doc[i + 1] == doc[1..][i];
    } else {
      assert Selects(sel, doc[0]) && Attr(doc[0], "content") == SelectorContent(doc, sel);
    }
  }

  /**
   * `.attr('content')` reads the FIRST element the selector picks: with no element picked the
   * selector yields nothing, and otherwise its value is the first picked element's `content`.
   */
  lemma {:induction false} SelectorContentFirst(doc: Document, sel: Selector)
    ensures (forall i :: 0 <= i < |doc| ==> !Selects(sel, doc[i])) ==> SelectorContent(doc, sel) == None
    ensures forall i :: 0 <= i < |doc| && Selects(sel, doc[i]) && (forall j :: 0 <= j < i ==> !Selects(sel, doc[j]))
              ==> SelectorContent(doc, sel) == Attr(doc[i], "content")
  {
    if doc != [] && !Selects(sel, doc[0]) {
      SelectorContentFirst(doc[1..], sel);
      assert forall i :: 0 < i < |doc| ==> doc[1..][i - 1] == doc[i];
    }
  }

  /** None of the selectors before position `k` yields a non-empty `content`. */
  predicate NoHitBefore(doc: Document, sels: seq<Selector>, k: int)
    requires 0 <= k <= |sels|
  {
    forall j :: 0 <= j < k ==> !Truthy(SelectorContent(doc, sels[j]))
  }

  /** The `for ... of` loop: the first selector whose `content` is non-empty wins. */
  function FirstHit(doc: Document, sels: seq<Selector>): (r: Option<string>)
    ensures r.None? <==> NoHitBefore(doc, sels, |sels|)
    ensures forall k :: 0 <= k < |sels| && NoHitBefore(doc, sels, k) && Truthy(SelectorContent(doc, sels[k]))
              ==> r == SelectorContent(doc, sels[k])
    ensures r.Some? ==> exists k :: 0 <= k < |sels| && Truthy(SelectorContent(doc, sels[k])) && r == SelectorContent(doc, sels[k])
  {
    if sels == [] then None
    else if Truthy(SelectorContent(doc, sels[0])) then SelectorContent(doc, sels[0])
    else
      var r := FirstHit(doc, sels[1..]);
      NoHitShift(doc, sels);
      r
  }

  /** Past a first selector that yields nothing, "no hit before k" is "no hit before k - 1" in the tail. */
  lemma {:induction false} NoHitShift(doc: Document, sels: seq<Selector>)
    requires sels != [] && !Truthy(SelectorContent(doc, sels[0]))
    ensures forall k :: 0 < k <= |sels| ==> (NoHitBefore(doc, sels, k) <==> NoHitBefore(doc, sels[1..], k - 1))
    ensures forall k :: 0 < k < |sels| ==> sels[1..][k - 1] == sels[k]
  {
    forall k | 0 < k <= |sels| ensures NoHitBefore(doc, sels, k) <==> NoHitBefore(doc, sels[1..], k - 1) {
      assert forall j :: 0 <= j < k - 1 ==> sels[1..][j] == sels[j + 1];
    }
  }

  /** `$('img').map((i, el) => $(el).attr('src')).get()`: the `src` of each image that has one. */
  function ImageSources(doc: Document): (r: seq<string>)
    ensures forall s :: s in r ==> exists i :: 0 <= i < |doc| && doc[i].tag == "img" && Attr(doc[i], "src") == Some(s)
    ensures forall i :: 0 <= i < |doc| && doc[i].tag == "img" && "src" in doc[i].attrs ==> doc[i].attrs["src"] in r
  {
    if doc == [] then []
    else
      var rest := ImageSources(doc[1..]);
      assert forall i :: 0 < i < |doc| ==> doc[1..][i - 1] == doc[i];
      assert forall s :: s in rest ==> exists i :: 0 < i < |doc| && doc[i].tag == "img" && Attr(doc[i], "src") == Some(s) by {
        forall s | s in rest ensures exists i :: 0 < i < |doc| && doc[i].tag == "img" && Attr(doc[i], "src") == Some(s) {
          var i :| 0 <= i < |doc[1..]| && doc[1..][i].tag == "img" && Attr(doc[1..][i], "src") == Some(s);
          assert doc[i + 1] == doc[1..][i];
        }
      }
      if doc[0].tag == "img" && "src" in doc[0].attrs then [doc[0].attrs["src"]] + rest else rest
  }

  /** Sources are collected in document order: the sources of a concatenation are concatenated. */
  lemma {:induction false} ImageSourcesAppend(a: Document, b: Document)
    ensures ImageSources(a + b) == ImageSources(a) + ImageSources(b)
  {
    if a == [] {
      assert a + b == b;
    } else {
      assert (a + b)[1..] == a[1..] + b;
      ImageSourcesAppend(a[1..], b);
    }
  }

  /** The `src` contains one of the hint words of the fallback. */
  predicate HasHint(src: string) {
    Contains(src, "product") || Contains(src, "media") || Contains(src, "assets")
  }

  predicate NoHintBefore(srcs: seq<string>, k: int)
    requires 0 <= k <= |srcs|
  {
    forall j :: 0 <= j < k ==> !HasHint(srcs[j])
  }

  /** `bodyImages.find(...)`: the first source, in document order, that carries a hint word. */
  function FindHinted(srcs: seq<string>): (r: Option<string>)
    ensures r.None? <==> NoHintBefore(srcs, |srcs|)
    ensures forall k :: 0 <= k < |srcs| && NoHintBefore(srcs, k) && HasHint(srcs[k]) ==> r == Some(srcs[k])
    ensures r.Some? ==> r.value in srcs && HasHint(r.value)
  {
    if srcs == [] then None
    else if HasHint(srcs[0]) then Some(srcs[0])
    else
      var r := FindHinted(srcs[1..]);
      NoHintShift(srcs);
      r
  }

  /** Past a first source without a hint word, "no hint before k" is "no hint before k - 1" in the tail. */
  lemma {:induction false} NoHintShift(srcs: seq<string>)
    requires srcs != [] && !HasHint(srcs[0])
    ensures forall k :: 0 < k <= |srcs| ==> (NoHintBefore(srcs, k) <==> NoHintBefore(srcs[1..], k - 1))
    ensures forall k :: 0 < k < |srcs| ==> srcs[1..][k - 1] == srcs[k]
  {
    forall k | 0 < k <= |srcs| ensures NoHintBefore(srcs, k) <==> NoHintBefore(srcs[1..], k - 1) {
      assert forall j :: 0 <= j < k - 1 ==> srcs[1..][j] == srcs[j + 1];
    }
  }

  /** What the extractor returns for a fetched and parsed page. */
  function ExtractFromDocument(doc: Document): Option<string> {
    match FirstHit(doc, Selectors)
    case Some(content) => Some(content)
    case None =>
      match FindHinted(ImageSources(doc))
      case Some(src) => if src != "" then Some(src) else None
      case None => None
  }

  /** `extractImageFromUrl`: a failed fetch or a non-OK response gives null; nothing escapes as an error. */
  function ExtractImageFromUrl(fetched: FetchOutcome): (r: Option<string>)
    ensures fetched.Threw? || !fetched.ok ==> r == None
    ensures fetched.Responded? && fetched.ok ==> r == ExtractFromDocument(fetched.page)
  {
    match fetched
    case Threw => None
    case Responded(ok, page) => if !ok then None else ExtractFromDocument(page)
  }

  // ---------------------------------------------------------------------------------------
  // Properties of the extractor.

  /**
   * Selector `k` decides the result exactly when every earlier selector yields no non-empty
   * `content` and selector `k` does.
   */
  lemma ExtractPriority(doc: Document, k: int)
    requires 0 <= k < |Selectors|
    requires NoHitBefore(doc, Selectors, k) && Truthy(SelectorContent(doc, Selectors[k]))
    ensures ExtractFromDocument(doc) == SelectorContent(doc, Selectors[k])
  {
  }

  /** The image fallback runs only when no selector hit, and then returns the first hinted `src`. */
  lemma ExtractFallback(doc: Document)
    ensures ExtractFromDocument(doc) == if NoHitBefore(doc, Selectors, |Selectors|)
                                        then FindHinted(ImageSources(doc))
                                        else FirstHit(doc, Selectors)
  {
  }

  /** The result is null exactly when no selector hits and no image source carries a hint word. */
  lemma ExtractNull(doc: Document)
    ensures ExtractFromDocument(doc).None? <==>
              NoHitBefore(doc, Selectors, |Selectors|) && forall s :: s in ImageSources(doc) ==> !HasHint(s)
  {
    ExtractFallback(doc);
    var srcs := ImageSources(doc);
    if forall s :: s in srcs ==> !HasHint(s) {
      assert NoHintBefore(srcs, |srcs|);
    }
  }

  /**
   * When no selector hits, the result is the `src` of the first `<img>`, in document order,
   * whose `src` contains a hint word; images before it without a hint word are skipped.
   */
  lemma ExtractFirstHintedImage(doc: Document, i: int)
    requires NoHitBefore(doc, Selectors, |Selectors|)
    requires 0 <= i < |doc| && doc[i].tag == "img" && "src" in doc[i].attrs && HasHint(doc[i].attrs["src"])
    requires forall j :: 0 <= j < i && doc[j].tag == "img" && "src" in doc[j].attrs ==> !HasHint(doc[j].attrs["src"])
    ensures ExtractFromDocument(doc) == Some(doc[i].attrs["src"])
  {
    var src := doc[i].attrs["src"];
    var front, back := doc[..i], doc[i..];
    assert doc == front + back;
    ImageSourcesAppend(front, back);
    assert back[1..] == doc[i + 1..];
    var pre := ImageSources(front);
    var srcs := pre + [src] + ImageSources(doc[i + 1..]);
    assert ImageSources(doc) == srcs;
    assert NoHintBefore(srcs, |pre|) by {
      forall j | 0 <= j < |pre| ensures !HasHint(srcs[j]) {
        assert srcs[j] == pre[j] && pre[j] in pre;
        var k :| 0 <= k < |front| && front[k].tag == "img" && Attr(front[k], "src") == Some(pre[j]);
        assert front[k] == doc[k];
      }
    }
    assert srcs[|pre|] == src;
    HintNonEmpty(src);
  }

  /** A source carrying a hint word is not empty, so the fallback's emptiness test lets it through. */
  lemma HintNonEmpty(src: string)
    requires HasHint(src)
    ensures src != ""
  {
  }

  /**
   * Element `e` supplies `v` to the extractor: `v` is the `content` of an element one of the
   * selectors picks, or the hinted `src` of an image.
   */
  predicate Supplies(e: Element, v: string) {
    || (exists k :: 0 <= k < |Selectors| && Selects(Selectors[k], e) && Attr(e, "content") == Some(v))
    || (e.tag == "img" && Attr(e, "src") == Some(v) && HasHint(v))
  }

  /**
   * A non-null result is a non-empty attribute value taken verbatim from the page. No other
   * attribute (`href` in particular) is ever returned, and nothing is resolved or filtered by size.
   */
  lemma ExtractVerbatim(doc: Document)
    requires ExtractFromDocument(doc).Some?
    ensures ExtractFromDocument(doc).value != ""
    ensures exists i :: 0 <= i < |doc| && Supplies(doc[i], ExtractFromDocument(doc).value)
  {
    match FirstHit(doc, Selectors)
    case Some(content) =>
      var k :| 0 <= k < |Selectors| && Truthy(SelectorContent(doc, Selectors[k])) && Some(content) == SelectorContent(doc, Selectors[k]);
      HitSupplied(doc, k);
    case None =>
      var src := FindHinted(ImageSources(doc)).value;
      SourceSupplied(doc, src);
  }

  lemma {:induction false} HitSupplied(doc: Document, k: int)
    requires 0 <= k < |Selectors| && SelectorContent(doc, Selectors[k]).Some?
    ensures exists i :: 0 <= i < |doc| && Supplies(doc[i], SelectorContent(doc, Selectors[k]).value)
  {
    var v := SelectorContent(doc, Selectors[k]);
    SelectorContentFound(doc, Selectors[k]);
    var i :| 0 <= i < |doc| && Selects(Selectors[k], doc[i]) && Attr(doc[i], "content") == v;
    assert Supplies(doc[i], v.value);
  }

  lemma {:induction false} SourceSupplied(doc: Document, src: string)
    requires src in ImageSources(doc) && HasHint(src)
    ensures exists i :: 0 <= i < |doc| && Supplies(doc[i], src)
  {
    var i :| 0 <= i < |doc| && doc[i].tag == "img" && Attr(doc[i], "src") == Some(src);
    assert Supplies(doc[i], src);
  }

  /** The page with attribute `name` removed from every element. */
  function DropAttr(doc: Document, name: string): (r: Document)
    ensures |r| == |doc|
    ensures forall i :: 0 <= i < |doc| ==> r[i] == Element(doc[i].tag, doc[i].attrs - {name})
  {
    if doc == [] then [] else [Element(doc[0].tag, doc[0].attrs - {name})] + DropAttr(doc[1..], name)
  }

  /** The attributes the extractor reads: those the selectors test, `content` and `src`. */
  predicate IsReadAttr(name: string) {
    name in {"property", "name", "rel", "content", "src"}
  }

  lemma {:induction false} SelectorContentIgnoresAttr(doc: Document, sel: Selector, name: string)
    requires !IsReadAttr(name) && sel.attr in {"property", "name", "rel"}
    ensures SelectorContent(DropAttr(doc, name), sel) == SelectorContent(doc, sel)
  {
    if doc != [] {
      assert DropAttr(doc, name)[1..] == DropAttr(doc[1..], name);
      SelectorContentIgnoresAttr(doc[1..], sel, name);
    }
  }

  lemma {:induction false} ImageSourcesIgnoreAttr(doc: Document, name: string)
    requires !IsReadAttr(name)
    ensures ImageSources(DropAttr(doc, name)) == ImageSources(doc)
  {
    if doc != [] {
      assert DropAttr(doc, name)[1..] == DropAttr(doc[1..], name);
      ImageSourcesIgnoreAttr(doc[1..], name);
    }
  }

  lemma {:induction false} FirstHitIgnoresAttr(doc: Document, sels: seq<Selector>, name: string)
    requires !IsReadAttr(name)
    requires forall k :: 0 <= k < |sels| ==> sels[k].attr in {"property", "name", "rel"}
    ensures FirstHit(DropAttr(doc, name), sels) == FirstHit(doc, sels)
  {
    if sels != [] {
      SelectorContentIgnoresAttr(doc, sels[0], name);
      FirstHitIgnoresAttr(doc, sels[1..], name);
    }
  }

  /**
   * Any other attribute, such as the `href` of `<link rel="image_src">`, never affects the
   * result: removing it everywhere leaves the result unchanged.
   */
  lemma ExtractIgnoresAttr(doc: Document, name: string)
    requires !IsReadAttr(name)
    ensures ExtractFromDocument(DropAttr(doc, name)) == ExtractFromDocument(doc)
  {
    FirstHitIgnoresAttr(doc, Selectors, name);
    ImageSourcesIgnoreAttr(doc, name);
  }

  /** With both an Open Graph and a Twitter-card image, the Open Graph one wins, wherever it stands. */
  lemma ExampleOpenGraphFirst()
    ensures ExtractFromDocument([
              Element("meta", map["name" := "twitter:image", "content" := "https://x.com/t.jpg"]),
              Element("meta", map["property" := "og:image", "content" := "https://x.com/a.jpg"])
            ]) == Some("https://x.com/a.jpg")
  {
  }
}
