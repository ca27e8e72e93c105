/**
 * The string logic of the page extractor in scrapper_2.py: the per-anchor
 * document-link resolution and classification of `extract_page_content`,
 * the meta-keywords split, and the order-preserving filter loop of
 * `scrape_all_urls_from_file`. HTML parsing, `urlparse` and the page
 * extraction itself are oracles: an anchor arrives as its `href`, its
 * stripped text and its `title`, the page URL arrives already parsed, and
 * the extraction of one URL is a function returning an optional result.
 */
module Scrapper {

  import opened Wrappers
  import opened Strings
  import opened Urls
  import opened Seqs

  // ---------------------------------------------------------------------
  // Document links

  /** An `<a href>` element: its `href`, its text as `get_text(strip=True)`
      gives it, and its `title` attribute (`""` when the attribute is
      absent). */
  datatype Anchor = Anchor(href: string, text: string, title: string)

  /** The three document kinds the extractor records. */
  datatype DocKind = Pdf | Doc | Docx

  /** One recorded document link. */
  datatype DocEntry = DocEntry(url: string, title: string)

  /** The `document_links` dictionary: one list per document kind. */
  datatype DocumentLinks = DocumentLinks(pdf: seq<DocEntry>, doc: seq<DocEntry>, docx: seq<DocEntry>)
  {
    function Of(kind: DocKind): seq<DocEntry>
    {
      match kind
      case Pdf => pdf
      case Doc => doc
      case Docx => docx
    }
  }

  function Suffix(kind: DocKind): string
  {
    match kind
    case Pdf => ".pdf"
    case Doc => ".doc"
    case Docx => ".docx"
  }

  /** The absolute URL of a lower-cased `href` on a page whose URL parses to
      `page`: an absolute path is put after the page's scheme and host, an
      `http...` href is kept as it is, and anything else is put after the
      scheme, the host and a slash. */
  function FullHref(page: ParsedUrl, href: string): (r: string)
    ensures StartsWith(href, "/") ==> r == page.scheme + "://" + page.netloc + href
    ensures !StartsWith(href, "/") && StartsWith(href, "http") ==> r == href
    ensures !StartsWith(href, "/") && !StartsWith(href, "http") ==>
              r == page.scheme + "://" + page.netloc + "/" + href
  {
    if StartsWith(href, "/") then
      page.scheme + "://" + page.netloc + href
    else if StartsWith(href, "http") then
      href
    else
      page.scheme + "://" + page.netloc + "/" + LStrip(href, '/')
  }

  /** The `elif` chain on the suffix of the lower-cased href. */
  function Classify(href: string): (r: Option<DocKind>)
    ensures r.Some? ==> EndsWith(href, Suffix(r.value))
    ensures r.None? ==> !EndsWith(href, ".pdf") && !EndsWith(href, ".doc") && !EndsWith(href, ".docx")
  {
    if EndsWith(href, ".pdf") then Some(Pdf)
    else if EndsWith(href, ".doc") then Some(Doc)
    else if EndsWith(href, ".docx") then Some(Docx)
    else None
  }

  /** The recorded title: the `title` attribute when it is not empty,
      otherwise the anchor's text. */
  function Title(a: Anchor): (r: string)
    ensures a.title != "" ==> r == a.title
    ensures a.title == "" ==> r == a.text
  {
    if a.title != "" then a.title else a.text
  }

  /** The entry an anchor contributes when its href names a document. */
  function EntryOf(page: ParsedUrl, a: Anchor): DocEntry
  {
    DocEntry(FullHref(page, Lower(a.href)), Title(a))
  }

  /** What one anchor contributes to the list of `kind`. */
  function Recorded(page: ParsedUrl, kind: DocKind, a: Anchor): Option<DocEntry>
  {
    if Classify(Lower(a.href)) == Some(kind) then Some(EntryOf(page, a)) else None
  }

  /** The entries recorded under `kind` for the anchors, in anchor order. */
  function EntriesOf(page: ParsedUrl, kind: DocKind, anchors: seq<Anchor>): seq<DocEntry>
  {
    FilterMap(anchors, (a: Anchor) => Recorded(page, kind, a))
  }

  /** One more anchor adds its entry to the list of its kind, and nothing to
      the others. */
  lemma EntriesOfStep(page: ParsedUrl, kind: DocKind, anchors: seq<Anchor>, i: nat)
    requires i < |anchors|
    ensures Classify(Lower(anchors[i].href)) == Some(kind) ==>
              EntriesOf(page, kind, anchors[..i + 1]) == EntriesOf(page, kind, anchors[..i]) + [EntryOf(page, anchors[i])]
    ensures Classify(Lower(anchors[i].href)) != Some(kind) ==>
              EntriesOf(page, kind, anchors[..i + 1]) == EntriesOf(page, kind, anchors[..i])
  {
    FilterMapStep(anchors, (a: Anchor) => Recorded(page, kind, a), i);
  }

  /** The link loop of `extract_page_content`: every anchor is resolved and,
      when its lower-cased href ends in `.pdf`, `.doc` or `.docx`, appended
      to the matching list. */
  method CollectDocumentLinks(page: ParsedUrl, anchors: seq<Anchor>) returns (links: DocumentLinks)
    ensures links.pdf == EntriesOf(page, Pdf, anchors)
    ensures links.doc == EntriesOf(page, Doc, anchors)
    ensures links.docx == EntriesOf(page, Docx, anchors)
  {
    var pdf, doc, docx := [], [], [];
    for i := 0 to |anchors|
      invariant pdf == EntriesOf(page, Pdf, anchors[..i])
      invariant doc == EntriesOf(page, Doc, anchors[..i])
      invariant docx == EntriesOf(page, Docx, anchors[..i])
    {
      var href := Lower(anchors[i].href);
      var fullHref := FullHref(page, href);
      var entry := DocEntry(fullHref, Title(anchors[i]));
      EntriesOfStep(page, Pdf, anchors, i);
      EntriesOfStep(page, Doc, anchors, i);
      EntriesOfStep(page, Docx, anchors, i);
      if EndsWith(href, ".pdf") {
        pdf := pdf + [entry];
      } else if EndsWith(href, ".doc") {
        doc := doc + [entry];
      } else if EndsWith(href, ".docx") {
        docx := docx + [entry];
      }
    }
    assert anchors[..|anchors|] == anchors;
    links := DocumentLinks(pdf, doc, docx);
  }

  // ---------------------------------------------------------------------
  // Lemmas about document links

  /** No href ends in two of the suffixes, so the order of the `elif` chain
      does not matter: an href is classified as `kind` exactly when it ends
      in that kind's suffix. In particular a `.docx` href is not a `.doc`. */
  lemma ClassifyBySuffix(href: string, kind: DocKind)
    ensures Classify(href) == Some(kind) <==> EndsWith(href, Suffix(kind))
  {
    if EndsWith(href, ".docx") {
      assert href[|href| - 4..] == ".docx"[1..];
      assert href[|href| - 4..] != ".doc" && href[|href| - 4..] != ".pdf";
    }
  }

  /** An href that ends in none of the three suffixes is not classified. */
  lemma UnclassifiedHasNoSuffix(href: string)
    ensures Classify(href) == None <==> forall kind :: !EndsWith(href, Suffix(kind))
  {
    forall kind ensures Classify(href) != Some(kind) <==> !EndsWith(href, Suffix(kind)) {
      ClassifyBySuffix(href, kind);
    }
  }

  /** A suffix without a slash cannot straddle a slash that ends `p` or
      starts `h`, so `p + h` ends in it exactly when `h` does. */
  lemma SuffixAfterSlash(p: string, h: string, sfx: string)
    requires '/' !in sfx
    requires (h != [] && h[0] == '/') || (p != [] && p[|p| - 1] == '/')
    ensures EndsWith(p + h, sfx) <==> EndsWith(h, sfx)
  {
    var r := p + h;
    if |sfx| <= |h| {
      assert r[|r| - |sfx|..] == h[|h| - |sfx|..];
    } else if |sfx| <= |r| {
      // The slash falls inside the last |sfx| characters of r.
      var k := if h != [] && h[0] == '/' then |sfx| - |h| else |sfx| - |h| - 1;
      assert r[|r| - |sfx|..][k] == '/';
    }
  }

  /** Resolution keeps the href at the end of the URL (the `lstrip('/')` of
      the last rule removes nothing, since that href does not start with a
      slash), so the resolved URL is classified as the href is. */
  lemma FullHrefKeepsHref(page: ParsedUrl, href: string)
    ensures EndsWith(FullHref(page, href), href)
    ensures Classify(FullHref(page, href)) == Classify(href)
  {
    var r := FullHref(page, href);
    if StartsWith(href, "/") {
      var p := page.scheme + "://" + page.netloc;
      assert r == p + href;
      assert r[|r| - |href|..] == href;
      SuffixAfterSlash(p, href, ".pdf");
      SuffixAfterSlash(p, href, ".doc");
      SuffixAfterSlash(p, href, ".docx");
    } else if StartsWith(href, "http") {
      assert r[|r| - |href|..] == href;
    } else {
      var p := page.scheme + "://" + page.netloc + "/";
      assert r == p + href;
      assert r[|r| - |href|..] == href;
      SuffixAfterSlash(p, href, ".pdf");
      SuffixAfterSlash(p, href, ".doc");
      SuffixAfterSlash(p, href, ".docx");
    }
  }

  /** A recorded entry is the resolution of some anchor of that kind, and
      every anchor of that kind is recorded. */
  lemma EntriesOfMembers(page: ParsedUrl, kind: DocKind, anchors: seq<Anchor>, e: DocEntry)
    ensures e in EntriesOf(page, kind, anchors) <==>
              exists i :: 0 <= i < |anchors| && Classify(Lower(anchors[i].href)) == Some(kind) &&
                          e == EntryOf(page, anchors[i])
  {
    FilterMapMembers(anchors, (a: Anchor) => Recorded(page, kind, a), e);
  }

  /** The lists of a longer run of anchors are the lists of its two parts,
      one after the other: entries keep anchor order. */
  lemma EntriesOfAppend(page: ParsedUrl, kind: DocKind, a: seq<Anchor>, b: seq<Anchor>)
    ensures EntriesOf(page, kind, a + b) == EntriesOf(page, kind, a) + EntriesOf(page, kind, b)
  {
    FilterMapAppend(a, b, (x: Anchor) => Recorded(page, kind, x));
  }

  /** An anchor that is not a document link adds nothing to any list. */
  lemma NonDocumentAddsNothing(page: ParsedUrl, anchors: seq<Anchor>, a: Anchor, kind: DocKind)
    requires Classify(Lower(a.href)) == None
    ensures EntriesOf(page, kind, anchors + [a]) == EntriesOf(page, kind, anchors)
  {
    assert (anchors + [a])[..|anchors|] == anchors;
  }

  /** Each anchor lands in at most one list, so the three lists together
      hold at most one entry per anchor. */
  lemma {:induction false} AtMostOneEntryPerAnchor(page: ParsedUrl, anchors: seq<Anchor>)
    ensures |EntriesOf(page, Pdf, anchors)| + |EntriesOf(page, Doc, anchors)| +
            |EntriesOf(page, Docx, anchors)| <= |anchors|
  {
    if anchors != [] {
      AtMostOneEntryPerAnchor(page, anchors[..|anchors| - 1]);
    }
  }

  // ---------------------------------------------------------------------
  // Meta keywords

  /** `s.strip()` of every string, in order. */
  function StripAll(pieces: seq<string>): (r: seq<string>)
    ensures |r| == |pieces|
    ensures forall i :: 0 <= i < |r| ==> r[i] == Strip(pieces[i])
  {
    if pieces == [] then [] else [Strip(pieces[0])] + StripAll(pieces[1..])
  }

  /** The `keywords` metadata: absent when the `<meta name="keywords">`
      content is missing or empty, otherwise the content split on commas
      with every piece stripped. */
  function MetaKeywords(content: Option<string>): (r: Option<seq<string>>)
    ensures content.None? || content == Some("") <==> r.None?
    ensures r.Some? ==> r.value == StripAll(Split(content.value, ','))
    ensures r.Some? ==> |r.value| == Count(content.value, ',') + 1
    ensures r.Some? ==> forall i :: 0 <= i < |r.value| ==>
              ',' !in r.value[i] &&
              (r.value[i] == [] || (!IsSpace(r.value[i][0]) && !IsSpace(r.value[i][|r.value[i]| - 1])))
  {
    if content.None? || content.value == "" then None
    else
      var pieces := Split(content.value, ',');
      Some(StripAll(pieces))
  }

  /** The keywords are the stripped pieces of a decomposition of the content
      at its commas: joining the unstripped pieces with commas gives the
      content back. */
  lemma KeywordsArePieces(content: string)
    requires content != ""
    ensures var keywords := MetaKeywords(Some(content)).value;
            exists pieces: seq<string> ::
              && Join(pieces, ",") == content
              && |pieces| == |keywords|
              && forall i :: 0 <= i < |pieces| ==> ',' !in pieces[i] && keywords[i] == Strip(pieces[i])
  {
    JoinSplit(content, ',');
    var pieces := Split(content, ',');
    assert Join(pieces, ",") == content;
  }

  /** A string with no whitespace is its own strip. */
  lemma StripNoSpace(s: string)
    requires forall k :: 0 <= k < |s| ==> !IsSpace(s[k])
    ensures Strip(s) == s
  {
    var t := s[LeadingSpace(s)..];
    assert LeadingSpace(s) == 0;
    assert TrailingSpace(t) == 0;
  }

  /** For content without whitespace, joining the keywords with commas gives
      the content back. */
  lemma KeywordsRoundTrip(content: string)
    requires content != ""
    requires forall k :: 0 <= k < |content| ==> !IsSpace(content[k])
    ensures MetaKeywords(Some(content)).Some?
    ensures Join(MetaKeywords(Some(content)).value, ",") == content
  {
    var pieces := Split(content, ',');
    forall i | 0 <= i < |pieces| ensures Strip(pieces[i]) == pieces[i] {
      PiecesHaveNoSpace(content, ',', i);
      StripNoSpace(pieces[i]);
    }
    assert StripAll(pieces) == pieces;
    JoinSplit(content, ',');
  }

  /** Every piece of a split is made of characters of the split string. */
  lemma {:induction false} PiecesHaveNoSpace(s: string, sep: char, i: nat)
    requires forall k :: 0 <= k < |s| ==> !IsSpace(s[k])
    requires i < |Split(s, sep)|
    ensures forall k :: 0 <= k < |Split(s, sep)[i]| ==> !IsSpace(Split(s, sep)[i][k])
  {
    if s != [] {
      var rest := Split(s[1..], sep);
      PiecesHaveNoSpace(s[1..], sep, if s[0] == sep then (if i == 0 then 0 else i - 1) else (if i == 0 then 0 else i));
      if s[0] != sep {
        if i == 0 {
          assert Split(s, sep)[0] == [s[0]] + rest[0];
        } else {
          PiecesHaveNoSpace(s[1..], sep, i);
          assert Split(s, sep)[i] == rest[i];
        }
      } else if i > 0 {
        assert Split(s, sep)[i] == rest[i - 1];
      }
    }
  }

  // ---------------------------------------------------------------------
  // scrape_all_urls_from_file

  /** `scrape_all_urls_from_file`: the URLs are the stripped lines of the
      file (`None` when the file does not exist, which yields no results);
      each is extracted in turn and only the successful results are kept,
      in file order: `FilterMap` of the extraction over the URLs, whose
      lemmas in `Seqs` give membership, order and length. */
  method ScrapeAllUrlsFromFile<T>(fileLines: Option<seq<string>>, extract: Url -> Option<T>)
    returns (scrapedData: seq<T>)
    ensures fileLines.None? ==> scrapedData == []
    ensures fileLines.Some? ==> scrapedData == FilterMap(StripAll(fileLines.value), extract)
  {
    if fileLines.None? {
      return [];
    }
    var urls := StripAll(fileLines.value);
    scrapedData := [];
    for i := 0 to |urls|
      invariant scrapedData == FilterMap(urls[..i], extract)
    {
      var content := extract(urls[i]);
      FilterMapStep(urls, extract, i);
      if content.Some? {
        scrapedData := scrapedData + [content.value];
      }
    }
    assert urls[..|urls|] == urls;
  }
}
