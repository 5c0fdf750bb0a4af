/**
 * `serviceMessageString`: the text of a service message (a membership change, a pin, a
 * game score, a payment, ...) as a localized template, its arguments and the attributes of
 * its arguments.
 *
 * Localized templates are named by `StringKey`; filling a template with its arguments and
 * applying argument attributes happen in library code, so a result records the key, the
 * argument strings and the index-to-attribute map. Only the three strings whose contents the
 * formatter itself inspects (the game-score templates, `Notification_PaymentSent` and
 * `Message_Audio`) are concrete, taken from the `Environment`.
 */
module ServiceMessage {
  import opened Wrappers
  import opened Telegram
  import opened Text
  import opened Mentions
  import opened PinnedContent
  import opened GameScoreFormat
  import opened PaymentFormat

  datatype StringKey =
    | Notification_CreatedChannel
    | Notification_CreatedGroup
    | Notification_JoinedChat
    | Notification_Invited
    | Notification_LeftChat
    | Notification_Kicked
    | Channel_MessagePhotoUpdated
    | Channel_MessagePhotoRemoved
    | Group_MessagePhotoUpdated
    | Group_MessagePhotoRemoved
    | Notification_ChangedGroupPhoto
    | Notification_RemovedGroupPhoto
    | Channel_MessageTitleUpdated
    | Group_MessageTitleUpdated
    | Notification_ChangedGroupName
    | Notification_PinnedTextMessage
    | Notification_PinnedPhotoMessage
    | Notification_PinnedVideoMessage
    | Notification_PinnedRoundMessage
    | Notification_PinnedAudioMessage
    | Notification_PinnedDocumentMessage
    | Notification_PinnedAnimationMessage
    | Notification_PinnedStickerMessage
    | Notification_PinnedLocationMessage
    | Notification_PinnedContactMessage
    | Notification_PinnedDeletedMessage
    | Notification_JoinedGroupByLink
    | Notification_ChannelMigratedFrom
    | Notification_MessageLifetimeChangedOutgoing
    | Notification_MessageLifetimeChanged
    | Notification_MessageLifetimeRemovedOutgoing
    | Notification_MessageLifetimeRemoved
    | Notification_SecretChatScreenshot
    | ServiceMessage_GameScoreSelfExtended
    | ServiceMessage_GameScoreSelfSimple
    | ServiceMessage_GameScoreExtended
    | ServiceMessage_GameScoreSimple
    | Message_PaymentSent
    | Message_ImageExpired
    | Message_VideoExpired

  /**
   * The collaborators of the formatter: localized strings whose contents it reads, and the
   * duration, currency, peer-title and main-peer helpers of the client library.
   */
  datatype Environment = Environment(
    messageAudio: string,
    paymentSentTemplate: string,
    gameScoreTemplate: (StringKey, Int32) -> string,
    timeIntervalString: Int32 -> string,
    formatCurrencyAmount: (Int64, string) -> string,
    peerDisplayTitles: (seq<PeerId>, map<PeerId, Peer>) -> string,
    messageMainPeer: Message -> Option<Peer>)

  /** The formatter's result. */
  datatype Description =
      /** A localized template filled with `args`; argument `i` carries `attributes[i]`. */
    | Localized(key: StringKey, args: seq<string>, attributes: map<int, Attr>)
      /** A template whose argument ranges were located by the formatter itself. */
    | RangeFormatted(template: string, ranges: seq<ArgumentRange>, args: seq<string>, attributes: map<int, Attr>)
      /** A string composed character by character by the formatter. */
    | Composed(text: AttributedString)

  /** A template with no argument attributes (the Swift code's plain `NSAttributedString`). */
  function Plain(key: StringKey, args: seq<string>): Description {
    Localized(key, args, map[])
  }

  /** `message.author?.displayTitle ?? ""` */
  function AuthorName(message: Message): string {
    match message.author
    case Some(p) => p.displayTitle
    case None => ""
  }

  /** The chat is a broadcast channel. */
  predicate IsBroadcastChannel(message: Message) {
    var chat := message.id.peerId;
    chat.namespace == CloudChannel && chat in message.peers && message.peers[chat].kind == ChannelPeer(Broadcast)
  }

  /** The account itself wrote the message (`message.author?.id == accountPeerId`). */
  predicate IsOutgoing(message: Message, accountPeerId: PeerId) {
    AuthorId(message) == Some(accountPeerId)
  }

  /** The compact title of the message's main peer, or "" without one. */
  function MainPeerTitle(env: Environment, message: Message): string {
    match env.messageMainPeer(message)
    case Some(p) => p.compactDisplayTitle
    case None => ""
  }

  /** Argument `i` of `attributes` mentions `peer` when there is one and has no attribute otherwise. */
  predicate MentionsAt(attributes: map<int, Attr>, i: int, peer: Option<PeerId>) {
    (i in attributes <==> peer.Some?) && (peer.Some? ==> attributes[i] == PeerMention(peer.value))
  }

  /** The attributes of a template whose only styled argument is the author at index 0. */
  function AuthorMention(message: Message): (r: map<int, Attr>)
    ensures MentionsAt(r, 0, AuthorId(message)) && r.Keys <= {0}
  {
    PeerMentionsAttributes([(0, AuthorId(message))])
  }

  function FirstPeer(peerIds: seq<PeerId>): Option<PeerId> {
    if |peerIds| > 0 then Some(peerIds[0]) else None
  }

  /**
   * The attributes of the "invited" and "kicked" templates: the author at index 0 and, when
   * exactly one peer is affected, that peer at index 1.
   */
  function MembersAttributes(message: Message, peerIds: seq<PeerId>): (r: map<int, Attr>)
    ensures r.Keys <= {0, 1}
    ensures MentionsAt(r, 0, AuthorId(message))
    ensures MentionsAt(r, 1, if |peerIds| == 1 then Some(peerIds[0]) else None)
  {
    var attributePeerIds := [(0, AuthorId(message))] + (if |peerIds| == 1 then [(1, FirstPeer(peerIds))] else []);
    DistinctIndicesMentions(attributePeerIds, 0);
    PeerMentionsAttributes(attributePeerIds)
  }

  /** Members added: the author joining alone is "joined", anything else is "invited". */
  function AddedMembersDescription(env: Environment, message: Message, peerIds: seq<PeerId>): (r: Description)
    ensures r.Localized?
    ensures r.key == Notification_JoinedChat <==> |peerIds| > 0 && AuthorId(message) == Some(peerIds[0])
    ensures r.key == Notification_JoinedChat ==>
      r.args == [AuthorName(message)] && r.attributes.Keys == {0} && r.attributes[0] == PeerMention(peerIds[0])
    ensures r.key != Notification_JoinedChat ==>
      && r.key == Notification_Invited
      && r.args == [AuthorName(message), env.peerDisplayTitles(peerIds, message.peers)]
      && r.attributes.Keys <= {0, 1}
      && MentionsAt(r.attributes, 0, AuthorId(message))
      && MentionsAt(r.attributes, 1, if |peerIds| == 1 then Some(peerIds[0]) else None)
  {
    if |peerIds| > 0 && Some(peerIds[0]) == AuthorId(message) then
      Localized(Notification_JoinedChat, [AuthorName(message)], PeerMentionsAttributes([(0, Some(peerIds[0]))]))
    else
      var attributes := MembersAttributes(message, peerIds);
      Localized(Notification_Invited, [AuthorName(message), env.peerDisplayTitles(peerIds, message.peers)], attributes)
  }

  /**
   * Members removed: as for added members, except that the first removed peer and the author
   * are compared as optionals, so an empty list with no author also reads "left".
   */
  function RemovedMembersDescription(env: Environment, message: Message, peerIds: seq<PeerId>): (r: Description)
    ensures r.Localized?
    ensures r.key == Notification_LeftChat <==> FirstPeer(peerIds) == AuthorId(message)
    ensures r.key == Notification_LeftChat ==>
      r.args == [AuthorName(message)] && r.attributes.Keys <= {0} && MentionsAt(r.attributes, 0, AuthorId(message))
    ensures r.key != Notification_LeftChat ==>
      && r.key == Notification_Kicked
      && r.args == [AuthorName(message), env.peerDisplayTitles(peerIds, message.peers)]
      && r.attributes.Keys <= {0, 1}
      && MentionsAt(r.attributes, 0, AuthorId(message))
      && MentionsAt(r.attributes, 1, if |peerIds| == 1 then Some(peerIds[0]) else None)
  {
    if FirstPeer(peerIds) == AuthorId(message) then
      Localized(Notification_LeftChat, [AuthorName(message)], AuthorMention(message))
    else
      var attributes := MembersAttributes(message, peerIds);
      Localized(Notification_Kicked, [AuthorName(message), env.peerDisplayTitles(peerIds, message.peers)], attributes)
  }

  /** The impersonal wording is used when the author has no name or the chat is a broadcast channel. */
  predicate Impersonal(message: Message) {
    AuthorName(message) == "" || IsBroadcastChannel(message)
  }

  /** The group or channel photo was set or removed. */
  function PhotoUpdatedDescription(message: Message, image: Option<Image>): (r: Description)
    ensures r.Localized? && r.args == (if Impersonal(message) then [] else [AuthorName(message)])
    ensures r.attributes == map[] <==> Impersonal(message)
    ensures Impersonal(message) ==>
      r.key == (if IsBroadcastChannel(message) then
                  (if image.Some? then Channel_MessagePhotoUpdated else Channel_MessagePhotoRemoved)
                else
                  (if image.Some? then Group_MessagePhotoUpdated else Group_MessagePhotoRemoved))
    ensures !Impersonal(message) ==>
      && r.key == (if image.Some? then Notification_ChangedGroupPhoto else Notification_RemovedGroupPhoto)
      && r.attributes.Keys == {0} && r.attributes[0] == PeerMention(message.author.value.id)
  {
    if AuthorName(message) == "" || IsBroadcastChannel(message) then
      if IsBroadcastChannel(message) then
        if image.Some? then Plain(Channel_MessagePhotoUpdated, []) else Plain(Channel_MessagePhotoRemoved, [])
      else
        if image.Some? then Plain(Group_MessagePhotoUpdated, []) else Plain(Group_MessagePhotoRemoved, [])
    else
      if image.Some? then Localized(Notification_ChangedGroupPhoto, [AuthorName(message)], AuthorMention(message))
      else Localized(Notification_RemovedGroupPhoto, [AuthorName(message)], AuthorMention(message))
  }

  /** The group or channel title changed; the new title is an argument without attribute. */
  function TitleUpdatedDescription(message: Message, title: string): (r: Description)
    ensures r.Localized? && r.args == (if Impersonal(message) then [title] else [AuthorName(message), title])
    ensures r.attributes == map[] <==> Impersonal(message)
    ensures Impersonal(message) ==>
      r.key == (if IsBroadcastChannel(message) then Channel_MessageTitleUpdated else Group_MessageTitleUpdated)
    ensures !Impersonal(message) ==>
      && r.key == Notification_ChangedGroupName
      && r.attributes.Keys == {0} && r.attributes[0] == PeerMention(message.author.value.id)
  {
    if AuthorName(message) == "" || IsBroadcastChannel(message) then
      if IsBroadcastChannel(message) then Plain(Channel_MessageTitleUpdated, [title])
      else Plain(Group_MessageTitleUpdated, [title])
    else
      Localized(Notification_ChangedGroupName, [AuthorName(message), title], AuthorMention(message))
  }

  /** The template of each pinned-content classification. */
  function PinnedKey(t: PinnedMediaType): StringKey {
    match t
    case PinnedText(_) => Notification_PinnedTextMessage
    case PinnedPhoto => Notification_PinnedPhotoMessage
    case PinnedVideo => Notification_PinnedVideoMessage
    case PinnedRound => Notification_PinnedRoundMessage
    case PinnedAudio => Notification_PinnedAudioMessage
    case PinnedFile => Notification_PinnedDocumentMessage
    case PinnedGif => Notification_PinnedAnimationMessage
    case PinnedSticker => Notification_PinnedStickerMessage
    case PinnedLocation => Notification_PinnedLocationMessage
    case PinnedContact => Notification_PinnedContactMessage
    case PinnedDeleted => Notification_PinnedDeletedMessage
  }

  /** The scan never yields "deleted" unless it started from it. */
  lemma {:induction false} ScanMediaNeverDeleted(media: seq<Media>, current: PinnedMediaType, messageAudio: string)
    requires !current.PinnedDeleted?
    ensures !ScanMedia(media, current, messageAudio).PinnedDeleted?
    decreases |media|
  {
    if |media| > 0 {
      match media[0]
      case ImageMedia(_) => ScanMediaNeverDeleted(media[1..], PinnedPhoto, messageAudio);
      case FileMedia(file) =>
        if file.isAnimated {
          ScanMediaNeverDeleted(media[1..], PinnedGif, messageAudio);
        } else if FileVerdict(file.attributes, file.fileName, messageAudio).None? {
          ScanMediaNeverDeleted(media[1..], PinnedFile, messageAudio);
        }
      case MapMedia => ScanMediaNeverDeleted(media[1..], PinnedLocation, messageAudio);
      case ContactMedia => ScanMediaNeverDeleted(media[1..], PinnedContact, messageAudio);
      case _ => ScanMediaNeverDeleted(media[1..], current, messageAudio);
    }
  }

  /** The classification is "deleted" exactly when the pinned message is missing. */
  lemma ClassifyPinnedDeleted(pinned: Option<LinkedMessage>, messageAudio: string)
    ensures ClassifyPinned(pinned, messageAudio).PinnedDeleted? <==> pinned.None?
  {
    if pinned.Some? {
      ScanMediaNeverDeleted(pinned.value.media, PinnedText(pinned.value.text), messageAudio);
    }
  }

  /**
   * A message was pinned: the author is mentioned at index 0; the "deleted" template is used
   * exactly when the pinned message cannot be resolved; the text template carries the
   * (classified) text with line feeds turned into spaces.
   */
  function PinnedDescription(env: Environment, message: Message): (r: Description)
    ensures r.Localized? && r.attributes == AuthorMention(message)
    ensures r.key == PinnedKey(ClassifyPinned(ReplyMessage(message), env.messageAudio))
    ensures r.key == Notification_PinnedDeletedMessage <==> ReplyMessage(message).None?
    ensures r.key == Notification_PinnedTextMessage ==>
      |r.args| == 2 && r.args[0] == AuthorName(message) && '\n' !in r.args[1] &&
      r.args[1] == NewlinesToSpaces(ClassifyPinned(ReplyMessage(message), env.messageAudio).text)
    ensures r.key != Notification_PinnedTextMessage ==> r.args == [AuthorName(message)]
  {
    var pinned := ReplyMessage(message);
    var t := ClassifyPinned(pinned, env.messageAudio);
    ClassifyPinnedDeleted(pinned, env.messageAudio);
    match t
    case PinnedText(text) => Localized(Notification_PinnedTextMessage, [AuthorName(message), NewlinesToSpaces(text)], AuthorMention(message))
    case _ => Localized(PinnedKey(t), [AuthorName(message)], AuthorMention(message))
  }

  /** The auto-delete timer was set (`timeout > 0`) or switched off. */
  function AutoremoveDescription(env: Environment, message: Message, accountPeerId: PeerId, timeout: Int32): (r: Description)
    ensures r.Localized? && r.attributes == map[]
    ensures timeout > 0 && IsOutgoing(message, accountPeerId) ==>
      r.key == Notification_MessageLifetimeChangedOutgoing && r.args == [env.timeIntervalString(timeout)]
    ensures timeout > 0 && !IsOutgoing(message, accountPeerId) ==>
      r.key == Notification_MessageLifetimeChanged && r.args == [MainPeerTitle(env, message), env.timeIntervalString(timeout)]
    ensures timeout <= 0 && IsOutgoing(message, accountPeerId) ==>
      r.key == Notification_MessageLifetimeRemovedOutgoing && r.args == []
    ensures timeout <= 0 && !IsOutgoing(message, accountPeerId) ==>
      r.key == Notification_MessageLifetimeRemoved && r.args == [MainPeerTitle(env, message)]
  {
    if timeout > 0 then
      var timeValue := env.timeIntervalString(timeout);
      if AuthorId(message) == Some(accountPeerId) then Plain(Notification_MessageLifetimeChangedOutgoing, [timeValue])
      else Plain(Notification_MessageLifetimeChanged, [MainPeerTitle(env, message), timeValue])
    else
      if AuthorId(message) == Some(accountPeerId) then Plain(Notification_MessageLifetimeRemovedOutgoing, [])
      else Plain(Notification_MessageLifetimeRemoved, [MainPeerTitle(env, message)])
  }

  /**
   * The auto-delete template tells the two cases apart: its key says whether the timer was
   * set and whether the message is outgoing, and the argument count follows from both (the
   * duration when set, the peer's title when incoming).
   */
  lemma AutoremoveKeyDecides(env: Environment, message: Message, accountPeerId: PeerId, timeout: Int32)
    ensures var r := AutoremoveDescription(env, message, accountPeerId, timeout);
      && (r.key in {Notification_MessageLifetimeChangedOutgoing, Notification_MessageLifetimeChanged} <==> timeout > 0)
      && (r.key in {Notification_MessageLifetimeChangedOutgoing, Notification_MessageLifetimeRemovedOutgoing} <==>
          IsOutgoing(message, accountPeerId))
      && |r.args| == (if timeout > 0 then 1 else 0) + (if IsOutgoing(message, accountPeerId) then 0 else 1)
  {
  }

  /** The template of a game score: self-authored or not, game title known or not. */
  function GameScoreKey(outgoing: bool, hasTitle: bool): StringKey {
    if outgoing then
      (if hasTitle then ServiceMessage_GameScoreSelfExtended else ServiceMessage_GameScoreSelfSimple)
    else
      (if hasTitle then ServiceMessage_GameScoreExtended else ServiceMessage_GameScoreSimple)
  }

  /**
   * A game score: argument 0 is the author's name (a mention of the author), argument 1 the
   * game title (bold, never a mention), bound to the placeholder ranges of the template.
   */
  function GameScoreDescription(env: Environment, message: Message, accountPeerId: PeerId, score: Int32): (r: Description)
    ensures r.RangeFormatted?
    ensures r.template == env.gameScoreTemplate(GameScoreKey(IsOutgoing(message, accountPeerId), GameTitle(message).Some?), score)
    ensures r.ranges == PlaceholderRanges(r.template)
    ensures r.args == [AuthorName(message), GameTitle(message).GetOr("")]
    ensures r.attributes.Keys <= {0, 1} && 1 in r.attributes && r.attributes[1] == BoldText
    ensures MentionsAt(r.attributes - {1}, 0, AuthorId(message))
  {
    var gameTitle := GameTitle(message);
    var key := GameScoreKey(AuthorId(message) == Some(accountPeerId), gameTitle.Some?);
    var baseString := env.gameScoreTemplate(key, score);
    var attributes := AuthorMention(message)[1 := BoldText];
    RangeFormatted(baseString, PlaceholderRanges(baseString), [AuthorName(message), gameTitle.GetOr("")], attributes)
  }

  /** The position of the last invoice among the first `n` media. */
  function LastInvoiceBefore(media: seq<Media>, n: nat): (r: Option<nat>)
    requires n <= |media|
    ensures r.None? <==> forall i | 0 <= i < n :: !media[i].InvoiceMedia?
    ensures r.Some? ==> r.value < n && media[r.value].InvoiceMedia? &&
                        forall j | r.value < j < n :: !media[j].InvoiceMedia?
  {
    if n == 0 then None
    else if media[n - 1].InvoiceMedia? then Some(n - 1)
    else LastInvoiceBefore(media, n - 1)
  }

  /** The title of the last invoice among `media`: the loop overwrites it at every invoice. */
  function LastInvoiceTitle(media: seq<Media>): (r: Option<string>)
    ensures r.None? <==> forall i | 0 <= i < |media| :: !media[i].InvoiceMedia?
    ensures r.Some? ==> exists i :: 0 <= i < |media| && media[i] == InvoiceMedia(r.value) &&
                                    forall j | i < j < |media| :: !media[j].InvoiceMedia?
  {
    match LastInvoiceBefore(media, |media|)
    case Some(i) => Some(media[i].invoiceTitle)
    case None => None
  }

  /** The invoice title of a payment: the last invoice of the replied-to message. */
  function InvoiceTitle(message: Message): (r: Option<string>) {
    match ReplyMessage(message)
    case Some(invoiceMessage) => LastInvoiceTitle(invoiceMessage.media)
    case None => None
  }

  /**
   * A payment was sent: with a known invoice the composed text of `PaymentSentText`, else the
   * plain `Message_PaymentSent` template with the formatted amount.
   */
  function PaymentDescription(env: Environment, message: Message, currency: string, totalAmount: Int64): (r: Description)
    ensures InvoiceTitle(message).None? <==> r.Localized?
    ensures r.Localized? ==>
      r == Plain(Message_PaymentSent, [env.formatCurrencyAmount(totalAmount, currency)])
    ensures r.Composed? ==>
      r.text == PaymentSentText(env.paymentSentTemplate, env.formatCurrencyAmount(totalAmount, currency),
                                MainPeerTitle(env, message), InvoiceTitle(message).value)
  {
    match InvoiceTitle(message)
    case Some(invoiceTitle) =>
      Composed(PaymentSentText(env.paymentSentTemplate, env.formatCurrencyAmount(totalAmount, currency),
                               MainPeerTitle(env, message), invoiceTitle))
    case None => Plain(Message_PaymentSent, [env.formatCurrencyAmount(totalAmount, currency)])
  }

  /** Actions after which the text set so far stands (`break` without assignment). */
  predicate KeepsPrevious(action: Action) {
    action.HistoryCleared? || action.PhoneCall?
  }

  /** Actions with no text of their own. */
  predicate Silent(action: Action) {
    action.HistoryCleared? || action.PhoneCall? || action.UnsupportedAction?
  }

  /** The text of one action. */
  function DescribeAction(env: Environment, message: Message, accountPeerId: PeerId, action: Action): (r: Option<Description>)
    ensures r.None? <==> Silent(action)
  {
    match action
    case GroupCreated =>
      Some(if IsBroadcastChannel(message) then Plain(Notification_CreatedChannel, []) else Plain(Notification_CreatedGroup, []))
    case AddedMembers(peerIds) => Some(AddedMembersDescription(env, message, peerIds))
    case RemovedMembers(peerIds) => Some(RemovedMembersDescription(env, message, peerIds))
    case PhotoUpdated(image) => Some(PhotoUpdatedDescription(message, image))
    case TitleUpdated(title) => Some(TitleUpdatedDescription(message, title))
    case PinnedMessageUpdated => Some(PinnedDescription(env, message))
    case JoinedByLink(_) => Some(Localized(Notification_JoinedGroupByLink, [AuthorName(message)], AuthorMention(message)))
    case ChannelMigratedFromGroup => Some(Plain(Notification_ChannelMigratedFrom, []))
    case GroupMigratedToChannel => Some(Plain(Notification_ChannelMigratedFrom, []))
    case MessageAutoremoveTimeoutUpdated(timeout) => Some(AutoremoveDescription(env, message, accountPeerId, timeout))
    case HistoryCleared => None
    case HistoryScreenshot => Some(Plain(Notification_SecretChatScreenshot, []))
    case GameScore(_, score) => Some(GameScoreDescription(env, message, accountPeerId, score))
    case PaymentSent(currency, totalAmount) => Some(PaymentDescription(env, message, currency, totalAmount))
    case PhoneCall => None
    case UnsupportedAction => None
  }

  /** Each action kind's text: the channel-or-group key, the per-kind helpers, and the fixed templates. */
  lemma DescribeActionByKind(env: Environment, message: Message, accountPeerId: PeerId, action: Action)
    ensures var r := DescribeAction(env, message, accountPeerId, action);
      match action
        case GroupCreated =>
          r == Some(Plain(if IsBroadcastChannel(message) then Notification_CreatedChannel else Notification_CreatedGroup, []))
        case AddedMembers(peerIds) => r == Some(AddedMembersDescription(env, message, peerIds))
        case RemovedMembers(peerIds) => r == Some(RemovedMembersDescription(env, message, peerIds))
        case PhotoUpdated(image) => r == Some(PhotoUpdatedDescription(message, image))
        case TitleUpdated(title) => r == Some(TitleUpdatedDescription(message, title))
        case PinnedMessageUpdated => r == Some(PinnedDescription(env, message))
        case JoinedByLink(_) =>
          && r.Some? && r.value.Localized?
          && r.value.key == Notification_JoinedGroupByLink && r.value.args == [AuthorName(message)]
          && MentionsAt(r.value.attributes, 0, AuthorId(message)) && r.value.attributes.Keys <= {0}
        case ChannelMigratedFromGroup => r == Some(Plain(Notification_ChannelMigratedFrom, []))
        case GroupMigratedToChannel => r == Some(Plain(Notification_ChannelMigratedFrom, []))
        case MessageAutoremoveTimeoutUpdated(timeout) => r == Some(AutoremoveDescription(env, message, accountPeerId, timeout))
        case HistoryScreenshot => r == Some(Plain(Notification_SecretChatScreenshot, []))
        case GameScore(_, score) => r == Some(GameScoreDescription(env, message, accountPeerId, score))
        case PaymentSent(currency, totalAmount) => r == Some(PaymentDescription(env, message, currency, totalAmount))
        case _ => r.None?
  {
  }

  /** The text of expired content: a photo or a video. */
  function ExpiredDescription(kind: ExpiredKind): Description {
    match kind
    case ExpiredImage => Plain(Message_ImageExpired, [])
    case ExpiredFile => Plain(Message_VideoExpired, [])
  }

  /**
   * The walk over the message's media: the first action decides and ends the walk (an action
   * that keeps the previous text leaves it in place); expired content sets its text and the
   * walk goes on.
   */
  function Walk(env: Environment, message: Message, accountPeerId: PeerId, media: seq<Media>, current: Option<Description>): (r: Option<Description>)
  {
    if |media| == 0 then current
    else
      match media[0]
      case ActionMedia(action) =>
        if KeepsPrevious(action) then current else DescribeAction(env, message, accountPeerId, action)
      case ExpiredContent(kind) => Walk(env, message, accountPeerId, media[1..], Some(ExpiredDescription(kind)))
      case _ => Walk(env, message, accountPeerId, media[1..], current)
  }

  /** `serviceMessageString` */
  function ServiceMessageString(env: Environment, message: Message, accountPeerId: PeerId): Option<Description> {
    Walk(env, message, accountPeerId, message.media, None)
  }

  // A reference definition of the walk, by position.

  ghost predicate FirstActionAt(media: seq<Media>, i: int) {
    0 <= i < |media| && media[i].ActionMedia? && forall j | 0 <= j < i :: !media[j].ActionMedia?
  }

  /** Position `i` holds the last expired content of `media`. */
  ghost predicate LastExpiredAt(media: seq<Media>, i: int) {
    0 <= i < |media| && media[i].ExpiredContent? && forall j | i < j < |media| :: !media[j].ExpiredContent?
  }

  /** The position of the last expired content among the first `n` media. */
  function LastExpiredBefore(media: seq<Media>, n: nat): (r: Option<nat>)
    requires n <= |media|
    ensures r.None? <==> forall i | 0 <= i < n :: !media[i].ExpiredContent?
    ensures r.Some? ==> r.value < n && media[r.value].ExpiredContent? &&
                        forall j | r.value < j < n :: !media[j].ExpiredContent?
  {
    if n == 0 then None
    else if media[n - 1].ExpiredContent? then Some(n - 1)
    else LastExpiredBefore(media, n - 1)
  }

  /** The kind of the last expired content among `media`. */
  function LastExpired(media: seq<Media>): (r: Option<ExpiredKind>)
    ensures r.None? <==> forall i | 0 <= i < |media| :: !media[i].ExpiredContent?
    ensures r.Some? ==> exists i :: LastExpiredAt(media, i) && media[i] == ExpiredContent(r.value)
    ensures forall i | LastExpiredAt(media, i) :: r == Some(media[i].kind)
  {
    match LastExpiredBefore(media, |media|)
    case Some(i) =>
      assert LastExpiredAt(media, i);
      Some(media[i].kind)
    case None => None
  }

  /** The text left by the expired content among `media`, or `current` if there is none. */
  function ExpiredOr(media: seq<Media>, current: Option<Description>): (r: Option<Description>) {
    match LastExpired(media)
    case Some(kind) => Some(ExpiredDescription(kind))
    case None => current
  }

  /** Putting an item in front changes the last expired content only when there was none. */
  lemma LastExpiredCons(m: Media, media: seq<Media>)
    ensures LastExpired([m] + media) ==
      if LastExpired(media).Some? then LastExpired(media)
      else if m.ExpiredContent? then Some(m.kind) else None
  {
    var s := [m] + media;
    assert forall j | 0 <= j < |media| :: s[j + 1] == media[j];
    if LastExpired(media).Some? {
      var i :| LastExpiredAt(media, i) && media[i] == ExpiredContent(LastExpired(media).value);
      assert forall j | i + 1 < j < |s| :: !s[j].ExpiredContent? by {
        forall j | i + 1 < j < |s| ensures !s[j].ExpiredContent? {
          assert s[j] == media[j - 1];
        }
      }
      assert LastExpiredAt(s, i + 1);
    } else if m.ExpiredContent? {
      assert LastExpiredAt(s, 0);
    } else {
      forall j | 0 <= j < |s| ensures !s[j].ExpiredContent? {
        if j > 0 { assert s[j] == media[j - 1]; }
      }
    }
  }

  lemma ExpiredOrConsExpired(kind: ExpiredKind, media: seq<Media>, current: Option<Description>)
    ensures ExpiredOr([ExpiredContent(kind)] + media, current) == ExpiredOr(media, Some(ExpiredDescription(kind)))
  {
    LastExpiredCons(ExpiredContent(kind), media);
  }

  lemma ExpiredOrConsOther(m: Media, media: seq<Media>, current: Option<Description>)
    requires !m.ExpiredContent?
    ensures ExpiredOr([m] + media, current) == ExpiredOr(media, current)
  {
    LastExpiredCons(m, media);
  }

  /**
   * The walk agrees with the reference definition: before the first action only the last
   * expired content counts; the first action then either keeps that text or replaces it
   * with its own (possibly none); without any action the last expired content decides.
   */
  lemma {:induction false} WalkReference(env: Environment, message: Message, accountPeerId: PeerId, media: seq<Media>, current: Option<Description>)
    ensures forall i | FirstActionAt(media, i) ::
      Walk(env, message, accountPeerId, media, current) ==
        if KeepsPrevious(media[i].action) then ExpiredOr(media[..i], current)
        else DescribeAction(env, message, accountPeerId, media[i].action)
    ensures (forall i | 0 <= i < |media| :: !media[i].ActionMedia?) ==>
      Walk(env, message, accountPeerId, media, current) == ExpiredOr(media, current)
    decreases |media|
  {
    if |media| > 0 {
      var m := media[0];
      var rest := media[1..];
      assert media == [m] + rest;
      if m.ActionMedia? {
        forall i | FirstActionAt(media, i)
          ensures Walk(env, message, accountPeerId, media, current) ==
            if KeepsPrevious(media[i].action) then ExpiredOr(media[..i], current)
            else DescribeAction(env, message, accountPeerId, media[i].action)
        {
          assert i == 0;
          assert media[..0] == [];
        }
      } else {
        var next := if m.ExpiredContent? then Some(ExpiredDescription(m.kind)) else current;
        assert Walk(env, message, accountPeerId, media, current) == Walk(env, message, accountPeerId, rest, next);
        WalkReference(env, message, accountPeerId, rest, next);
        forall i | FirstActionAt(media, i)
          ensures Walk(env, message, accountPeerId, media, current) ==
            if KeepsPrevious(media[i].action) then ExpiredOr(media[..i], current)
            else DescribeAction(env, message, accountPeerId, media[i].action)
        {
          assert FirstActionAt(rest, i - 1);
          assert media[..i] == [m] + rest[..i - 1];
          if m.ExpiredContent? {
            ExpiredOrConsExpired(m.kind, rest[..i - 1], current);
          } else {
            ExpiredOrConsOther(m, rest[..i - 1], current);
          }
        }
        if forall i | 0 <= i < |media| :: !media[i].ActionMedia? {
          assert forall i | 0 <= i < |rest| :: !rest[i].ActionMedia? by {
            forall i | 0 <= i < |rest| ensures !rest[i].ActionMedia? {
              assert rest[i] == media[i + 1];
            }
          }
          if m.ExpiredContent? {
            ExpiredOrConsExpired(m.kind, rest, current);
          } else {
            ExpiredOrConsOther(m, rest, current);
          }
        }
      }
    }
  }

  /**
   * `serviceMessageString` against the reference definition: the first action decides,
   * unless it keeps the previous text, in which case the last expired content before it
   * decides; without an action the last expired content decides.
   */
  lemma ServiceMessageStringReference(env: Environment, message: Message, accountPeerId: PeerId)
    ensures forall i | FirstActionAt(message.media, i) ::
      ServiceMessageString(env, message, accountPeerId) ==
        if KeepsPrevious(message.media[i].action) then ExpiredOr(message.media[..i], None)
        else DescribeAction(env, message, accountPeerId, message.media[i].action)
    ensures (forall i | 0 <= i < |message.media| :: !message.media[i].ActionMedia?) ==>
      ServiceMessageString(env, message, accountPeerId) == ExpiredOr(message.media, None)
  {
    WalkReference(env, message, accountPeerId, message.media, None);
  }

  /**
   * When a message has no text: its first action has none of its own and, if it keeps the
   * previous text, no expired content precedes it; or it has neither actions nor expired
   * content.
   */
  lemma ServiceMessageStringAbsent(env: Environment, message: Message, accountPeerId: PeerId)
    ensures forall i | FirstActionAt(message.media, i) ::
      (ServiceMessageString(env, message, accountPeerId).None? <==>
        Silent(message.media[i].action) &&
        (KeepsPrevious(message.media[i].action) ==> forall j | 0 <= j < i :: !message.media[j].ExpiredContent?))
    ensures (forall i | 0 <= i < |message.media| :: !message.media[i].ActionMedia?) ==>
      (ServiceMessageString(env, message, accountPeerId).None? <==>
        forall j | 0 <= j < |message.media| :: !message.media[j].ExpiredContent?)
  {
    ServiceMessageStringReference(env, message, accountPeerId);
    forall i | FirstActionAt(message.media, i)
      ensures ServiceMessageString(env, message, accountPeerId).None? <==>
        Silent(message.media[i].action) &&
        (KeepsPrevious(message.media[i].action) ==> forall j | 0 <= j < i :: !message.media[j].ExpiredContent?)
    {
      var prefix := message.media[..i];
      assert forall j | 0 <= j < i :: prefix[j] == message.media[j];
    }
  }
}
