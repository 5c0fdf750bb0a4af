/**
 * The link-preview bubble of a message: which webpage it shows, which of the page's fields
 * become the title, subtitle and text lines, which medium it shows with which layout flags,
 * what a tap does, and which media it hides while one of them is open in the gallery.
 */
module WebpagePreview {
  import opened Wrappers
  import opened Telegram

  /** Layout hints passed with the medium to the attached-content node. */
  datatype MediaFlag = PreferMediaBeforeText | PreferMediaInline

  /** The medium a preview shows: the page's image or the page's file. */
  datatype PreviewMedia = PreviewImage(image: Image) | PreviewFile(file: File)

  datatype MediaAndFlags = MediaAndFlags(media: PreviewMedia, flags: set<MediaFlag>)

  /** What the layout pass hands to the attached-content node, and the webpage it keeps. */
  datatype Preview = Preview(
    webPage: Option<Webpage>,
    title: Option<string>,
    subtitle: Option<string>,
    text: Option<string>,
    mediaAndFlags: Option<MediaAndFlags>)

  /** The first webpage among `media`. */
  function FirstWebpage(media: seq<Media>): (r: Option<Webpage>)
    ensures r.None? <==> forall i | 0 <= i < |media| :: !media[i].WebpageMedia?
    ensures r.Some? ==>
      exists i :: 0 <= i < |media| && media[i] == WebpageMedia(r.value) && forall j | 0 <= j < i :: !media[j].WebpageMedia?
  {
    match FirstWebpageFrom(media, 0)
    case Some(i) => Some(media[i].webpage)
    case None => None
  }

  /** The position of the first webpage at or after position `k`. */
  function FirstWebpageFrom(media: seq<Media>, k: nat): (r: Option<nat>)
    requires k <= |media|
    ensures r.None? <==> forall i | k <= i < |media| :: !media[i].WebpageMedia?
    ensures r.Some? ==> k <= r.value < |media| && media[r.value].WebpageMedia? &&
                        forall j | k <= j < r.value :: !media[j].WebpageMedia?
    decreases |media| - k
  {
    if k == |media| then None
    else if media[k].WebpageMedia? then Some(k)
    else FirstWebpageFrom(media, k + 1)
  }

  /** An optional string kept only when it is present and non-empty. */
  function NonEmpty(s: Option<string>): (r: Option<string>)
    ensures r.Some? <==> s.Some? && s.value != ""
    ensures r.Some? ==> r == s
  {
    if s.Some? && s.value != "" then s else None
  }

  /** The page types whose image is always shown as a large medium. */
  predicate IsRichType(pageType: Option<string>) {
    pageType.Some? && pageType.value in {"photo", "video", "embed"}
  }

  /**
   * The medium of a loaded page: a file page shows its image (when it also has an image and
   * a non-empty embed URL) or else its file, without flags; an image-only page shows its
   * image for photo, video and embed pages (before the text when there is an instant view),
   * and inline for other pages whose image has known dimensions.
   */
  function SelectMedia(page: LoadedWebpage): (r: Option<MediaAndFlags>)
    ensures r.None? <==>
      page.file.None? && (page.image.None? || (!IsRichType(page.pageType) && page.image.value.largestDimensions.None?))
    ensures r.Some? ==>
      (r.value.media.PreviewImage? && page.image == Some(r.value.media.image)) ||
      (r.value.media.PreviewFile? && page.file == Some(r.value.media.file))
    ensures r.Some? && r.value.media.PreviewFile? <==>
      page.file.Some? && !(page.image.Some? && page.embedUrl.Some? && page.embedUrl.value != "")
    ensures r.Some? && page.file.Some? ==> r.value.flags == {}
    ensures r.Some? ==> (PreferMediaBeforeText in r.value.flags <==>
      page.file.None? && IsRichType(page.pageType) && page.instantPage.Some?)
    ensures r.Some? ==> (PreferMediaInline in r.value.flags <==>
      page.file.None? && !IsRichType(page.pageType))
  {
    match page.file
    case Some(file) =>
      if page.image.Some? && page.embedUrl.Some? && page.embedUrl.value != "" then
        Some(MediaAndFlags(PreviewImage(page.image.value), {}))
      else
        Some(MediaAndFlags(PreviewFile(file), {}))
    case None =>
      match page.image
      case Some(image) =>
        if IsRichType(page.pageType) then
          Some(MediaAndFlags(PreviewImage(image), if page.instantPage.Some? then {PreferMediaBeforeText} else {}))
        else if image.largestDimensions.Some? then
          Some(MediaAndFlags(PreviewImage(image), {PreferMediaInline}))
        else
          None
      case None => None
  }

  /** The layout pass's selection of what the preview shows for a message's media. */
  function PreviewOf(media: seq<Media>): (r: Preview)
    ensures r.webPage == FirstWebpage(media)
    ensures (r.webPage.None? || r.webPage.value.content.Pending?) ==>
      r.title.None? && r.subtitle.None? && r.text.None? && r.mediaAndFlags.None?
    ensures r.webPage.Some? && r.webPage.value.content.Loaded? ==>
      var page := r.webPage.value.content.page;
      r.title == NonEmpty(page.websiteName) && r.subtitle == NonEmpty(page.title) &&
      r.text == NonEmpty(page.text) && r.mediaAndFlags == SelectMedia(page)
  {
    var webPage := FirstWebpage(media);
    match webPage
    case Some(Webpage(_, Loaded(page))) =>
      Preview(webPage, NonEmpty(page.websiteName), NonEmpty(page.title), NonEmpty(page.text), SelectMedia(page))
    case _ => Preview(webPage, None, None, None, None)
  }

  /** A `CGPoint` and a `CGRect`, whose width and height may be negative. */
  datatype Point = Point(x: real, y: real)
  datatype Rect = Rect(x: real, y: real, width: real, height: real)

  function Min(a: real, b: real): real { if a <= b then a else b }
  function Max(a: real, b: real): real { if a <= b then b else a }

  /**
   * `CGRect.contains`: the point lies in the half-open extent of the standardized rectangle
   * (minimum edges included, maximum edges excluded).
   */
  predicate Contains(rect: Rect, point: Point) {
    Min(rect.x, rect.x + rect.width) <= point.x < Max(rect.x, rect.x + rect.width) &&
    Min(rect.y, rect.y + rect.height) <= point.y < Max(rect.y, rect.y + rect.height)
  }

  /** The rectangle with the same extent and a non-negative width and height. */
  function Standardized(rect: Rect): (r: Rect)
    ensures r.width >= 0.0 && r.height >= 0.0
  {
    Rect(Min(rect.x, rect.x + rect.width), Min(rect.y, rect.y + rect.height),
         Max(rect.x, rect.x + rect.width) - Min(rect.x, rect.x + rect.width),
         Max(rect.y, rect.y + rect.height) - Min(rect.y, rect.y + rect.height))
  }

  /** Containment does not depend on the orientation of the rectangle. */
  lemma ContainsStandardized(rect: Rect, point: Point)
    ensures Contains(Standardized(rect), point) <==> Contains(rect, point)
  {
  }

  datatype TapAction = InstantPageTap | NoTap

  /** A loaded webpage that has an instant view. */
  predicate HasInstantPage(webPage: Option<Webpage>) {
    webPage.Some? && webPage.value.content.Loaded? && webPage.value.content.page.instantPage.Some?
  }

  /** A tap opens the instant view exactly when it is inside the bubble and the kept page has one. */
  function TapActionAtPoint(bounds: Rect, webPage: Option<Webpage>, point: Point): (r: TapAction)
    ensures r == InstantPageTap <==> Contains(bounds, point) && HasInstantPage(webPage)
  {
    if Contains(bounds, point) && HasInstantPage(webPage) then InstantPageTap else NoTap
  }

  /**
   * A tap inside the bubble of a message opens the instant view exactly when the message's
   * first webpage is loaded with one, whatever the medium the preview selected.
   */
  lemma TapOnPreview(bounds: Rect, media: seq<Media>, point: Point)
    requires Contains(bounds, point)
    ensures TapActionAtPoint(bounds, PreviewOf(media).webPage, point) == InstantPageTap <==>
      exists i :: 0 <= i < |media| && media[i].WebpageMedia? && HasInstantPage(Some(media[i].webpage)) &&
        forall j | 0 <= j < i :: !media[j].WebpageMedia?
  {
    var webPage := FirstWebpage(media);
    if webPage.Some? {
      var i :| 0 <= i < |media| && media[i] == WebpageMedia(webPage.value) && forall j | 0 <= j < i :: !media[j].WebpageMedia?;
    }
  }

  /** The media hidden for a webpage: the webpage, then its image and file when loaded. */
  function HiddenList(webpage: Webpage): (r: seq<Media>)
    ensures |r| >= 1 && r[0] == WebpageMedia(webpage)
    ensures forall image :: ImageMedia(image) in r <==>
      webpage.content.Loaded? && webpage.content.page.image == Some(image)
    ensures forall file :: FileMedia(file) in r <==>
      webpage.content.Loaded? && webpage.content.page.file == Some(file)
    ensures forall m | m in r :: m.WebpageMedia? || m.ImageMedia? || m.FileMedia?
    ensures forall i | 1 <= i < |r| :: !r[i].WebpageMedia?
    ensures webpage.content.Pending? ==> |r| == 1
    ensures webpage.content.Loaded? ==>
      var page := webpage.content.page;
      && |r| == 1 + (if page.image.Some? then 1 else 0) + (if page.file.Some? then 1 else 0)
      && (page.image.Some? ==> r[1] == ImageMedia(page.image.value))
      && (page.file.Some? ==> r[|r| - 1] == FileMedia(page.file.value))
  {
    match webpage.content
    case Loaded(page) =>
      [WebpageMedia(webpage)] +
      (match page.image case Some(image) => [ImageMedia(image)] case None => []) +
      (match page.file case Some(file) => [FileMedia(file)] case None => [])
    case Pending => [WebpageMedia(webpage)]
  }

  /**
   * `updateHiddenMedia`: without a list nothing is hidden; with one, the media of the kept
   * webpage are hidden when the list contains that webpage, and nothing is otherwise.
   */
  method UpdateHiddenMedia(media: Option<seq<Media>>, current: Option<Webpage>) returns (updated: Option<seq<Media>>)
    ensures media.None? ==> updated.None?
    ensures updated.Some? <==> media.Some? && current.Some? && WebpageMedia(current.value) in media.value
    ensures updated.Some? ==> updated.value == HiddenList(current.value)
  {
    updated := None;
    if media.Some? {
      var items := media.value;
      var i := 0;
      while i < |items|
        invariant 0 <= i <= |items|
        invariant updated.Some? <==> current.Some? && WebpageMedia(current.value) in items[..i]
        invariant updated.Some? ==> updated.value == HiddenList(current.value)
      {
        if items[i].WebpageMedia? && current.Some? && items[i].webpage == current.value {
          updated := Some(HiddenList(items[i].webpage));
        }
        assert items[..i + 1] == items[..i] + [items[i]];
        i := i + 1;
      }
      assert items[..i] == items;
    }
  }

  /**
   * Whatever medium the preview shows is hidden along with the webpage it was taken from,
   * so opening that medium in the gallery hides it in the bubble.
   */
  lemma PreviewMediaHidden(media: seq<Media>)
    requires PreviewOf(media).mediaAndFlags.Some?
    ensures PreviewOf(media).webPage.Some?
    ensures match PreviewOf(media).mediaAndFlags.value.media
      case PreviewImage(image) => ImageMedia(image) in HiddenList(PreviewOf(media).webPage.value)
      case PreviewFile(file) => FileMedia(file) in HiddenList(PreviewOf(media).webPage.value)
  {
  }
}
