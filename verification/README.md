# Service-message text and link previews of the Telegram iOS chat view

This project models two pieces of the chat view of the Telegram iOS client. It proves
properties of them in Dafny.

**The service-message formatter** (`serviceMessageString`) takes a message and returns its
optional service-message text. It walks the message's media:

- expired content (a self-destructing photo or video) sets the "expired" text and the walk goes on;
- the first action (group created, members added or removed, photo or title changed, message
  pinned, auto-delete timer, game score, payment, ...) decides the text and ends the walk;
- `historyCleared` and `phoneCall` leave the text set so far; other unsupported actions clear it.

Each action's text is a localized template, its arguments, and the argument attributes. An
attribute is a mention of a peer, built by `peerMentionsAttributes`, or bold text. The formatter
holds three small algorithms, each modelled and proved on its own:

- the classification of a pinned message's content, including the label of an audio file
  (module `PinnedContent`);
- the location of the `{name}` and `{game}` placeholders of a game-score template, sorted by
  position (module `GameScoreFormat`);
- the successive replacement of `{amount}`, `{name}` and `{title}` in the payment template,
  with per-character fonts (module `PaymentFormat`).

**The link-preview bubble** (module `WebpagePreview`) covers four things:

- which webpage of a message it shows;
- which of the page's non-empty fields become the title, subtitle and text lines;
- which medium it shows, with which layout flags;
- what a tap does, and which media it hides while one of them is open in the gallery.

Modules:

- `Wrappers`: `Option`.
- `Telegram`: peers, messages, media, actions and attributes, and the resolution of the
  replied-to message.
- `Text`: first occurrence of a substring (`NSString.range(of:)`) and line-feed replacement.
- `Mentions`: `peerMentionsAttributes`.
- `PinnedContent`, `GameScoreFormat`, `PaymentFormat`: the three algorithms above.
- `ServiceMessage`: the per-action texts, the media walk, and a reference definition of the
  walk.
- `WebpagePreview`: the link-preview bubble.

Localized strings are named by a `StringKey`. Only strings whose contents the code inspects
are concrete, and these come from an `Environment` value:

- the game-score templates;
- `Notification_PaymentSent`;
- `Message_Audio`.

The duration formatter, the currency formatter, peer display titles and the message's main
peer are function-valued fields of the same `Environment`.

## Model

| member | source | states |
|---|---|---|
| Mentions.PeerMentionsAttributes | TelegramUI/ChatMessageActionItemNode.swift:15-23 | The keys are exactly the indices paired with a peer. Each entry is a mention of the peer of the last such pair for its index. |
| Mentions.DistinctIndicesMentions | TelegramUI/ChatMessageActionItemNode.swift:15-23 | With pairwise distinct indices, an index paired with a peer mentions that very peer, and an index paired with no peer has no attribute. |
| Telegram.ReplyMessage | TelegramUI/ChatMessageActionItemNode.swift:116-121 | The replied-to message is absent iff no reply attribute has a loaded target. Otherwise it is the target of the last such attribute. |
| Text.FindFirst | TelegramUI/ChatMessageActionItemNode.swift:273-279 | The result is a location where the pattern occurs and before which it does not occur. It is absent iff the pattern is empty or does not occur. |
| Text.NewlinesToSpaces | TelegramUI/ChatMessageActionItemNode.swift:184 | Same length; every line feed becomes a space, every other character is kept, and no line feed remains. |
| Text.NewlinesToSpacesIdempotent | TelegramUI/ChatMessageActionItemNode.swift:184 | Replacing line feeds a second time changes nothing. |
| PinnedContent.AudioLabel | TelegramUI/ChatMessageActionItemNode.swift:144-158 | Over the two strings the code calls `title` and `performer`: with both non-empty, `title`, " — ", then `performer`. With one non-empty: that one alone. With neither: the file name, else the localized "Audio". |
| PinnedContent.AttributeVerdict | TelegramUI/ChatMessageActionItemNode.swift:136-164 | A video attribute gives round video or video by its round flag. A sticker gives sticker. A voice audio attribute gives audio. Any other audio attribute gives a text label. |
| PinnedContent.AudioVerdictPerformerFirst | TelegramUI/ChatMessageActionItemNode.swift:143-159 | The pattern binds the track's performer to the local `title` and the track's title to the local `performer`. So with both non-empty the label is the performer, " — ", then the title. With one non-empty it is that one. With neither it is the file name, else "Audio". |
| PinnedContent.FileVerdict | TelegramUI/ChatMessageActionItemNode.swift:134-170 | A file's attributes end the scan iff one of them is a video, audio or sticker attribute. The first such attribute decides the classification. |
| PinnedContent.ScanMediaReference | TelegramUI/ChatMessageActionItemNode.swift:123-180 | The media scan equals a per-item reference definition. The first non-animated file with a deciding attribute decides. Otherwise the last image, file, map or contact decides, else the starting classification stands. |
| PinnedContent.ClassifyPinnedReference | TelegramUI/ChatMessageActionItemNode.swift:116-180 | A missing pinned message is "deleted". Otherwise the classification is the reference definition, starting from the message's own text. |
| ServiceMessage.ScanMediaNeverDeleted | TelegramUI/ChatMessageActionItemNode.swift:126-180 | The media scan never produces "deleted" unless it started from it. |
| ServiceMessage.ClassifyPinnedDeleted | TelegramUI/ChatMessageActionItemNode.swift:116-125 | The classification is "deleted" iff the pinned message cannot be resolved. |
| GameScoreFormat.FirstGame | TelegramUI/ChatMessageActionItemNode.swift:250-255 | Absent iff the media hold no game. Otherwise it is the title of the first game. |
| GameScoreFormat.GameTitle | TelegramUI/ChatMessageActionItemNode.swift:247-257 | The game title is that of the first reply attribute whose loaded target holds a game. It is absent iff there is none. |
| GameScoreFormat.SortByLocation | TelegramUI/ChatMessageActionItemNode.swift:280 | The result is ordered by location and is a permutation of the input. |
| GameScoreFormat.StrictlySortedUnique | TelegramUI/ChatMessageActionItemNode.swift:280 | Two orderings by location of the same ranges agree when the locations are distinct. So any sort returns the sequence the insertion sort returns. |
| GameScoreFormat.PlaceholderRanges | TelegramUI/ChatMessageActionItemNode.swift:273-280 | At most two ranges, strictly ascending by location. Index 0 is present iff `{name}` occurs; index 1 is present iff `{game}` occurs. Each range covers its placeholder's first occurrence. |
| PaymentFormat.ReplaceFirst | TelegramUI/ChatMessageActionItemNode.swift:314-325 | An empty or absent placeholder leaves the styled string unchanged. Otherwise the characters of its first occurrence are replaced by the replacement run: the runs before and after keep their characters and fonts, and the length changes by the difference. |
| PaymentFormat.ReplaceFirstTextAtFirst | TelegramUI/ChatMessageActionItemNode.swift:314-325 | A left-to-right scan that replaces the first occurrence agrees with a replacement at the location the search reports. |
| PaymentFormat.CharactersOfReplaceFirst | TelegramUI/ChatMessageActionItemNode.swift:314-325 | On the characters, the styled replacement is the plain-string replacement. |
| PaymentFormat.PaymentSentTextCharacters | TelegramUI/ChatMessageActionItemNode.swift:310-327 | The composed text is the template with its first `{amount}`, then first `{name}`, then first `{title}` replaced, each on the string produced so far. |
| PaymentFormat.PaymentSentWithoutPlaceholders | TelegramUI/ChatMessageActionItemNode.swift:310-327 | A template without placeholders is shown unchanged in the regular font. |
| PaymentFormat.PaymentSentInTemplateOrder | TelegramUI/ChatMessageActionItemNode.swift:310-327 | Take a template whose placeholders come in the order amount, name, title, with no other `{`. The message is its text with the amount and bot name in bold and the invoice title regular. |
| ServiceMessage.AuthorMention | TelegramUI/ChatMessageActionItemNode.swift:15-23 | Index 0 mentions the author when there is one. No other index has an attribute. |
| ServiceMessage.MembersAttributes | TelegramUI/ChatMessageActionItemNode.swift:52-66 | Index 0 mentions the author. Index 1 mentions the affected peer exactly when one peer is affected. |
| ServiceMessage.AddedMembersDescription | TelegramUI/ChatMessageActionItemNode.swift:49-58 | "Joined" iff the first added peer is the author, with that peer as the only mention. Otherwise "invited", with the author at index 0 and the added peer at index 1 iff exactly one was added. |
| ServiceMessage.RemovedMembersDescription | TelegramUI/ChatMessageActionItemNode.swift:59-68 | "Left" iff the optional first removed peer equals the optional author id; otherwise "kicked" with the same mentions as "invited". |
| ServiceMessage.PhotoUpdatedDescription | TelegramUI/ChatMessageActionItemNode.swift:69-90 | The impersonal template (no attributes) is used iff the author name is empty or the chat is a broadcast channel. The key follows channel vs group and set vs removed. Otherwise the author is mentioned at index 0. |
| ServiceMessage.TitleUpdatedDescription | TelegramUI/ChatMessageActionItemNode.swift:91-100 | The same impersonal/personal split; the new title is an argument without attribute. |
| ServiceMessage.PinnedDescription | TelegramUI/ChatMessageActionItemNode.swift:101-205 | The template follows the classification. "Deleted" iff the pinned message is unresolved. The pinned text argument has no line feed. The author is mentioned at index 0. |
| ServiceMessage.AutoremoveDescription | TelegramUI/ChatMessageActionItemNode.swift:210-241 | A positive timeout picks a "changed" template, else "removed". An outgoing message picks the outgoing variant. Otherwise the main peer's compact title (or "") is an argument. |
| ServiceMessage.AutoremoveKeyDecides | TelegramUI/ChatMessageActionItemNode.swift:210-241 | The key alone says whether the timer was set and whether the message is outgoing. The argument count is one for a set timer plus one for an incoming message. |
| ServiceMessage.GameScoreDescription | TelegramUI/ChatMessageActionItemNode.swift:246-285 | The template key follows self-authored × title known. The ranges are the template's placeholder ranges. The arguments are the author's name and the title (or ""). Index 1 is bold, never a mention. |
| ServiceMessage.LastInvoiceTitle | TelegramUI/ChatMessageActionItemNode.swift:295-301 | Absent iff there is no invoice. Otherwise it is the title of the last invoice. |
| ServiceMessage.PaymentDescription | TelegramUI/ChatMessageActionItemNode.swift:286-330 | With an invoice title, the composed payment text of the formatted amount, the main peer's title and the invoice title. Without one, the plain template with the formatted amount. |
| ServiceMessage.DescribeAction | TelegramUI/ChatMessageActionItemNode.swift:42-335 | An action has a text of its own iff it is not history-cleared, phone-call or unsupported. |
| ServiceMessage.DescribeActionByKind | TelegramUI/ChatMessageActionItemNode.swift:42-335 | Group created gives the channel key in a broadcast channel and the group key otherwise. Joined by link mentions the author at index 0 and nothing else. Both migrations give the migrated template, and a screenshot the screenshot template, all without arguments. Every other action's text is its per-kind description. |
| ServiceMessage.LastExpired | TelegramUI/ChatMessageActionItemNode.swift:338-345 | Absent iff there is no expired content. Otherwise it is the kind of the last expired content, with no expired content after it, as the loop overwrites the text at each. |
| ServiceMessage.WalkReference | TelegramUI/ChatMessageActionItemNode.swift:32-346 | The walk equals the reference definition. The first action decides, unless it keeps the previous text, in which case the last expired content before it (or the starting text) stands. Without an action, the last expired content stands. |
| ServiceMessage.ServiceMessageStringReference | TelegramUI/ChatMessageActionItemNode.swift:25-349 | The same for the whole formatter, starting from no text. |
| ServiceMessage.ServiceMessageStringAbsent | TelegramUI/ChatMessageActionItemNode.swift:25-349 | No text iff one of two things holds. (1) The first action has no text of its own, and for history-cleared and phone-call no expired content precedes it. (2) There is no action and no expired content. |
| WebpagePreview.FirstWebpage | TelegramUI/ChatMessageWebpageBubbleContentNode.swift:47-55 | Absent iff the media hold no webpage. Otherwise it is the first webpage. |
| WebpagePreview.NonEmpty | TelegramUI/ChatMessageWebpageBubbleContentNode.swift:62-73 | A field is kept iff it is present and non-empty. |
| WebpagePreview.SelectMedia | TelegramUI/ChatMessageWebpageBubbleContentNode.swift:75-92 | No medium iff there is no file and (no image, or a non-photo/video/embed page whose image has no dimensions). The medium is the page's own image or file; the file is shown iff there is a file and not (an image and a non-empty embed URL). File pages get no flags. "Before text" iff image-only rich page with an instant view. "Inline" iff image-only other page. |
| WebpagePreview.PreviewOf | TelegramUI/ChatMessageWebpageBubbleContentNode.swift:45-92 | The kept webpage is the first one. Nothing is shown unless it is loaded; then title, subtitle and text are the non-empty website name, title and text, and the medium is the selected one. |
| WebpagePreview.Standardized | TelegramUI/ChatMessageWebpageBubbleContentNode.swift:134 | The standardized rectangle has non-negative width and height. |
| WebpagePreview.ContainsStandardized | TelegramUI/ChatMessageWebpageBubbleContentNode.swift:134 | Containment of a point does not depend on the rectangle's orientation. |
| WebpagePreview.TapActionAtPoint | TelegramUI/ChatMessageWebpageBubbleContentNode.swift:133-142 | A tap opens the instant view iff it is inside the bounds and the kept page is loaded with an instant view. |
| WebpagePreview.TapOnPreview | TelegramUI/ChatMessageWebpageBubbleContentNode.swift:133-142 | A tap inside the bubble opens the instant view iff the message's first webpage is loaded with one. |
| WebpagePreview.HiddenList | TelegramUI/ChatMessageWebpageBubbleContentNode.swift:148-157 | The webpage comes first and appears nowhere else. A pending page gives just the webpage. A loaded page adds its image at position 1 and its file last, each iff present, and the length is exactly one plus the number present. |
| WebpagePreview.UpdateHiddenMedia | TelegramUI/ChatMessageWebpageBubbleContentNode.swift:144-165 | No list gives nothing hidden. With a list, media are hidden iff it contains the kept webpage, and then they are that webpage's hidden list. |
| WebpagePreview.PreviewMediaHidden | TelegramUI/ChatMessageWebpageBubbleContentNode.swift:144-165 | Whatever medium the preview shows is in the hidden list of the webpage it came from. |

## Left out

- Layout, fonts and colours are not modelled: `asyncLayout`, frame and inset arithmetic, line-rect bucketing, gestures, highlight rects and `transitionNode`. They are rendering and UI plumbing. A font is kept only for the payment text, where the choice of bold or regular is part of the result.
- `addAttributesToStringWithRanges`, `formatWithArgumentRanges` and the localized template texts are library code. A result records the template key, the arguments and the attribute map, or the template and its ranges. It does not record the assembled string.
- `timeIntervalString`, `formatCurrencyAmount`, `peerDisplayTitles`, `messageMainPeer`, `largestImageRepresentation`, `displayTitle`, `compactDisplayTitle` and `isAnimated` are library code. They enter as `Environment` functions or as data.
- Text.FindFirst: locations count characters, while `NSString` counts UTF-16 code units. The two agree on text without characters outside the Basic Multilingual Plane.
- WebpagePreview.UpdateHiddenMedia: `isEqual` on webpages is modelled as structural equality. So every matching item yields the same list, and "the last match wins" cannot be observed.
- Bubble bounds: the null and infinite rectangles of Core Graphics are not modelled. Bounds are finite.
- The "message is visible" flag, theme, animation and the attached-content node's own behaviour are left out. They concern display only.

Behaviour of the code worth knowing:

- History-cleared and phone-call actions leave the text set so far, so an earlier expired-content text survives them. Only unsupported actions reset it to none.
- In the pinned-content scan, a later image, file, map or contact overwrites an earlier one. Only a file's video, audio or sticker attribute ends the scan.
- Removed members compare the first removed peer and the author as optionals. So an empty list from a message with no author reads "left", with no mention.
- The new title in "changed group name" carries no attribute.
- A non-voice audio file classifies as its text label. A voice message classifies as audio.

## Findings

| source | as written | input that shows it | evidently intended | confidence | as-written member | corrected member |
|---|---|---|---|---|---|---|
| TelegramUI/ChatMessageActionItemNode.swift:143-149 | The audio pattern binds by position: the third payload value gets the local name `performer` and the fourth the name `title`. The audio attribute's payload is isVoice, duration, title, performer, waveform. So the local `performer` holds the track's title and the local `title` the performer, and the label built as `title`, " — ", `performer` reads performer first. | A non-voice track titled "Song" by "Band" is labelled "Band — Song". | "Song — Band": the title, " — ", then the performer. | medium, not executed. The payload order comes from the library's declaration of the attribute, which is not part of this model. | PinnedContent.AudioVerdictSongByBand | PinnedContent.IntendedAudioLabel |

The pinned-content scan follows the code as written: `AttributeVerdict` passes the track's
performer where the code's `title` goes. `IntendedAudioLabel` states the label with the title
first. It agrees with the label the code builds whenever title and performer are not both
non-empty.
