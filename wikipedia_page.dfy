/** The text logic of the Wikipedia page object: the artwork designer read from the
    infobox caption, and the absolute URL of the infobox image. What the browser
    provides (whether a caption element exists, its inner text, the image's `src`
    attribute) is a parameter. */
module WikipediaPage {
  import opened Wrappers
  import opened Text
  import opened ArtworkCaption
  import opened DesignerText

  const DesignerNotFound := "Designer not found"

  /** What the caption lookup in the browser yields. `LookupFailed` carries the text of
      an error the browser raised while counting the elements or reading their text. */
  datatype CaptionLookup = NoCaption | Caption(text: string) | LookupFailed(cause: string)

  /** `getArtworkDesigner`: the cleaned group of the caption's match, or the sentinel. */
  function ArtworkDesigner(caption: CaptionLookup): (r: Result<string>)
  {
    match caption
    case LookupFailed(cause) => Failure("Failed to get artwork designer: " + cause)
    case NoCaption => Success(DesignerNotFound)
    case Caption(text) =>
      match MatchCaption(text)
      case Some(m) =>
        if m.from < m.to <= |text| && text[m.from..m.to] != "" then
          Success(CleanDesignerText(text[m.from..m.to]))
        else Success(DesignerNotFound)
      case None => Success(DesignerNotFound)
  }

  /** The designer comes from the caption exactly as the source promises: without a
      caption or a match the result is the sentinel; with a match it is the cleaned
      group of the preferred match. Only a browser error is a failure. */
  lemma ArtworkDesignerSpec(caption: CaptionLookup)
    ensures ArtworkDesigner(caption).Failure? <==> caption.LookupFailed?
    ensures caption.LookupFailed? ==>
      ArtworkDesigner(caption) == Failure("Failed to get artwork designer: " + caption.cause)
    ensures caption.NoCaption? ==> ArtworkDesigner(caption) == Success(DesignerNotFound)
    ensures caption.Caption? ==>
      var s := caption.text;
      && ((forall at: nat, from: nat, to: nat :: !Matches(s, at, from, to))
            ==> ArtworkDesigner(caption) == Success(DesignerNotFound))
      && ((exists at: nat, from: nat, to: nat :: Matches(s, at, from, to))
            ==> exists m :: Preferred(s, m))
      && forall m :: Preferred(s, m) ==>
           m.from <= m.to <= |s| && ArtworkDesigner(caption) == Success(CleanDesignerText(s[m.from..m.to]))
  {
    if caption.Caption? {
      var s := caption.text;
      MatchCaptionCorrect(s);
      if MatchCaption(s).Some? {
        assert Preferred(s, MatchCaption(s).value);
      }
      forall m | Preferred(s, m)
        ensures m.from <= m.to <= |s| && ArtworkDesigner(caption) == Success(CleanDesignerText(s[m.from..m.to]))
      {
        var n := MatchCaption(s).value;
        PreferredUnique(s, m, n);
      }
    }
  }

  /** At most one match is preferred. */
  lemma PreferredUnique(s: string, m: Span, n: Span)
    requires Preferred(s, m) && Preferred(s, n)
    ensures m == n
  {
    assert Matches(s, n.at, n.from, n.to);
    assert Matches(s, m.at, m.from, m.to);
  }

  /** A designer read from a caption is trimmed and single-spaced and no longer than the
      caption. */
  lemma DesignerIsNormalized(text: string)
    ensures ArtworkDesigner(Caption(text)).Success?
    ensures var d := ArtworkDesigner(Caption(text)).value;
      d == DesignerNotFound || (Trimmed(d) && SingleSpaced(d) && |d| <= |text|)
  {
    var r := MatchCaption(text);
    if r.Some? {
      CaptureNonEmpty(text);
      var g := text[r.value.from..r.value.to];
      CleanIsNormalized(g);
      CleanShrinks(g);
    }
  }

  const WikipediaOrigin := "https://en.wikipedia.org"

  /** The error `downloadMainImage` raises without a `src`, wrapped by its own `catch`. */
  const MissingImageSource := "Failed to download main image: Error: Could not find image source"

  /** The absolute image URL computed in `downloadMainImage`, with that method's error
      wrapping; `src` is the `src` attribute, `None` when it is absent. */
  function AbsoluteImageUrl(src: Option<string>): (r: Result<string>)
  {
    match src
    case None => Failure(MissingImageSource)
    case Some(u) =>
      if u == "" then Failure(MissingImageSource)
      else if StartsWith(u, "//") then Success("https:" + u)
      else if StartsWith(u, "/") then Success(WikipediaOrigin + u)
      else Success(u)
  }

  /** A missing or empty `src` is an error and any other is resolved; a protocol-relative
      `src` gets `https:` (the `//` test wins over the `/` test), a root-relative one the
      Wikipedia origin, anything else is kept. */
  lemma AbsoluteImageUrlSpec(src: Option<string>)
    ensures AbsoluteImageUrl(src).Failure? <==> (src.None? || src.value == "")
    ensures AbsoluteImageUrl(src).Failure? ==> AbsoluteImageUrl(src).error == MissingImageSource
    ensures AbsoluteImageUrl(src).Success? ==>
      var u, url := src.value, AbsoluteImageUrl(src).value;
      && (StartsWith(u, "//") ==> url == "https:" + u)
      && (StartsWith(u, "/") && !StartsWith(u, "//") ==> url == WikipediaOrigin + u)
      && (!StartsWith(u, "/") ==> url == u)
  {
    if src.Some? && src.value != "" && StartsWith(src.value, "//") {
      assert StartsWith(src.value, "/");
    }
  }

  /** The resolved URL ends with the `src`, never starts with `/`, and resolving it again
      leaves it unchanged. */
  lemma AbsoluteImageUrlIdempotent(src: Option<string>)
    requires AbsoluteImageUrl(src).Success?
    ensures var url := AbsoluteImageUrl(src).value;
      && |src.value| <= |url| && url[|url| - |src.value|..] == src.value
      && !StartsWith(url, "/")
      && AbsoluteImageUrl(Some(url)) == Success(url)
  {
    var u := src.value;
    var url := AbsoluteImageUrl(src).value;
    if StartsWith(u, "//") {
      assert url == "https:" + u && url[0] == 'h';
    } else if StartsWith(u, "/") {
      assert url == WikipediaOrigin + u && url[0] == 'h';
    } else {
      assert u[0] != '/';
    }
  }
}
