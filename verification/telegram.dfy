/**
 * The slice of the client's message store that the service-message formatter and
 * the webpage-preview bubble read: peers, messages, their media and attributes.
 *
 * The Swift code type-tests an open `Media` class hierarchy (`media as? TelegramMediaFile`);
 * here every media kind the two components look at is one variant of a closed datatype,
 * and everything else is `OtherMedia`.
 */
module Telegram {
  import opened Wrappers

  /** Swift's `Int32` and `Int64`. The model only compares and forwards them. */
  type Int32 = x: int | -0x8000_0000 <= x < 0x8000_0000
  type Int64 = x: int | -0x8000_0000_0000_0000 <= x < 0x8000_0000_0000_0000

  datatype PeerNamespace = CloudUser | CloudGroup | CloudChannel | SecretChat | OtherNamespace

  datatype PeerId = PeerId(namespace: PeerNamespace, id: Int32)

  datatype MessageId = MessageId(peerId: PeerId, namespace: Int32, id: Int32)

  datatype ChannelInfo = Broadcast | Megagroup

  datatype PeerKind = UserPeer | GroupPeer | ChannelPeer(info: ChannelInfo)

  /**
   * A peer as the formatter sees it. `displayTitle` and `compactDisplayTitle` are
   * computed by library code outside this model and enter as data.
   */
  datatype Peer = Peer(id: PeerId, kind: PeerKind, displayTitle: string, compactDisplayTitle: string)

  datatype Dimensions = Dimensions(width: int, height: int)

  /**
   * An image. `largestDimensions` is the dimensions of `largestImageRepresentation` of the
   * image's representations (a library lookup), absent when that lookup yields nothing.
   */
  datatype Image = Image(imageId: int, largestDimensions: Option<Dimensions>)

  /** The file attributes the pinned-content classifier distinguishes. */
  datatype FileAttribute =
    | VideoAttribute(instantRoundVideo: bool)
    | AudioAttribute(isVoice: bool, title: Option<string>, performer: Option<string>)
    | StickerAttribute
    | AnimatedAttribute
    | OtherFileAttribute

  /** A file; `isAnimated` is the library's computed property, taken as data. */
  datatype File = File(fileId: int, isAnimated: bool, attributes: seq<FileAttribute>, fileName: Option<string>)

  /** An opaque instant-view page; only its presence matters here. */
  datatype InstantPage = InstantPage(pageId: int)

  datatype LoadedWebpage = LoadedWebpage(
    websiteName: Option<string>,
    title: Option<string>,
    text: Option<string>,
    embedUrl: Option<string>,
    pageType: Option<string>,
    image: Option<Image>,
    file: Option<File>,
    instantPage: Option<InstantPage>)

  datatype WebpageContent = Pending | Loaded(page: LoadedWebpage)

  datatype Webpage = Webpage(webpageId: int, content: WebpageContent)

  /** The kind of media whose content expired (a self-destructing photo or video). */
  datatype ExpiredKind = ExpiredImage | ExpiredFile

  /** The service actions the formatter distinguishes; `UnsupportedAction` is every other kind. */
  datatype Action =
    | GroupCreated
    | AddedMembers(peerIds: seq<PeerId>)
    | RemovedMembers(peerIds: seq<PeerId>)
    | PhotoUpdated(image: Option<Image>)
    | TitleUpdated(title: string)
    | PinnedMessageUpdated
    | JoinedByLink(inviter: PeerId)
    | ChannelMigratedFromGroup
    | GroupMigratedToChannel
    | MessageAutoremoveTimeoutUpdated(timeout: Int32)
    | HistoryCleared
    | HistoryScreenshot
    | GameScore(gameId: int, score: Int32)
    | PaymentSent(currency: string, totalAmount: Int64)
    | PhoneCall
    | UnsupportedAction

  datatype Media =
    | ActionMedia(action: Action)
    | ExpiredContent(kind: ExpiredKind)
    | ImageMedia(image: Image)
    | FileMedia(file: File)
    | MapMedia
    | ContactMedia
    | GameMedia(gameTitle: string)
    | InvoiceMedia(invoiceTitle: string)
    | WebpageMedia(webpage: Webpage)
    | OtherMedia

  datatype MessageAttribute = ReplyAttribute(messageId: MessageId) | OtherAttribute

  /** A message reachable through `associatedMessages`; only its text and media are read. */
  datatype LinkedMessage = LinkedMessage(text: string, media: seq<Media>)

  datatype Message = Message(
    id: MessageId,
    author: Option<Peer>,
    peers: map<PeerId, Peer>,
    media: seq<Media>,
    attributes: seq<MessageAttribute>,
    associatedMessages: map<MessageId, LinkedMessage>)

  /** `message.author?.id` */
  function AuthorId(message: Message): Option<PeerId> {
    match message.author
    case Some(p) => Some(p.id)
    case None => None
  }

  /** The message reached through attribute `k`, when it is a reply whose target is loaded. */
  function ReplyTarget(message: Message, k: nat): Option<LinkedMessage>
    requires k < |message.attributes|
  {
    match message.attributes[k]
    case ReplyAttribute(id) => if id in message.associatedMessages then Some(message.associatedMessages[id]) else None
    case OtherAttribute => None
  }

  /** Attribute `j` is the last attribute from `k` on whose reply target is loaded. */
  ghost predicate IsLastReply(message: Message, k: nat, j: nat) {
    k <= j < |message.attributes| && ReplyTarget(message, j).Some? &&
    forall j' | j < j' < |message.attributes| :: ReplyTarget(message, j').None?
  }

  /**
   * The message the formatter resolves as "the replied-to message": it walks all attributes
   * and keeps the target of the last reply attribute whose target is loaded.
   */
  function ReplyMessage(message: Message): (r: Option<LinkedMessage>)
    ensures r.None? <==> forall j | 0 <= j < |message.attributes| :: ReplyTarget(message, j).None?
    ensures r.Some? ==> exists j :: IsLastReply(message, 0, j) && r == ReplyTarget(message, j)
  {
    ReplyMessageFrom(message, 0, None)
  }

  function ReplyMessageFrom(message: Message, k: nat, found: Option<LinkedMessage>): (r: Option<LinkedMessage>)
    requires k <= |message.attributes|
    ensures (exists j :: IsLastReply(message, k, j) && r == ReplyTarget(message, j)) ||
            ((forall j | k <= j < |message.attributes| :: ReplyTarget(message, j).None?) && r == found)
    decreases |message.attributes| - k
  {
    if k == |message.attributes| then found
    else
      var target := ReplyTarget(message, k);
      ReplyMessageFrom(message, k + 1, if target.Some? then target else found)
  }
}
