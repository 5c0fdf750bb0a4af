/**
 * Classification of a pinned message's content, which selects one of the eleven
 * "pinned ..." templates of the service-message formatter.
 */
module PinnedContent {
  import opened Wrappers
  import opened Telegram

  datatype PinnedMediaType =
    | PinnedText(text: string)
    | PinnedPhoto
    | PinnedVideo
    | PinnedRound
    | PinnedAudio
    | PinnedFile
    | PinnedGif
    | PinnedSticker
    | PinnedLocation
    | PinnedContact
    | PinnedDeleted

  /**
   * The label chain of a non-voice audio file, over the two strings the code binds to its
   * local names `title` and `performer`: "title — performer" when both are non-empty, else
   * whichever of the two is non-empty, else the file name, else `messageAudio` (the
   * localized `Message_Audio`).
   */
  function AudioLabel(title: Option<string>, performer: Option<string>, fileName: Option<string>, messageAudio: string): (r: string)
    ensures Present(title) ==> title.value <= r
    ensures Present(performer) ==> |performer.value| <= |r| && r[|r| - |performer.value|..] == performer.value
    ensures Present(title) && Present(performer) ==>
      |r| == |title.value| + 3 + |performer.value| && r[|title.value|..|title.value| + 3] == " — "
    ensures Present(title) && !Present(performer) ==> r == title.value
    ensures !Present(title) && Present(performer) ==> r == performer.value
    ensures !Present(title) && !Present(performer) ==> r == fileName.GetOr(messageAudio)
  {
    if title.Some? && performer.Some? && title.value != "" && performer.value != "" then
      title.value + " — " + performer.value
    else if title.Some? && title.value != "" then
      title.value
    else if performer.Some? && performer.value != "" then
      performer.value
    else if fileName.Some? then
      fileName.value
    else
      messageAudio
  }

  /** An optional string that is present and non-empty. */
  predicate Present(s: Option<string>) {
    s.Some? && s.value != ""
  }

  /** The attributes that end the whole media scan when met on a non-animated file. */
  predicate Decisive(a: FileAttribute) {
    a.VideoAttribute? || a.AudioAttribute? || a.StickerAttribute?
  }

  /**
   * What a decisive attribute classifies its file as. The audio pattern binds the attribute's
   * values by position, and the code names the position holding the track's title
   * `performer` and the one holding the performer `title`; so the label chain receives the
   * performer first.
   */
  function AttributeVerdict(a: FileAttribute, fileName: Option<string>, messageAudio: string): (r: PinnedMediaType)
    requires Decisive(a)
    ensures a.VideoAttribute? ==> r == (if a.instantRoundVideo then PinnedRound else PinnedVideo)
    ensures a.StickerAttribute? ==> r == PinnedSticker
    ensures a.AudioAttribute? && a.isVoice ==> r == PinnedAudio
    ensures a.AudioAttribute? && !a.isVoice ==> r.PinnedText?
  {
    match a
    case VideoAttribute(round) => if round then PinnedRound else PinnedVideo
    case AudioAttribute(isVoice, trackTitle, trackPerformer) =>
      if isVoice then PinnedAudio else PinnedText(AudioLabel(trackPerformer, trackTitle, fileName, messageAudio))
    case StickerAttribute => PinnedSticker
  }

  /**
   * The label of a non-voice audio file as the code builds it: the performer, " — ", then the
   * title when both are non-empty; else whichever is non-empty; else the file name, else
   * `messageAudio`.
   */
  lemma AudioVerdictPerformerFirst(title: Option<string>, performer: Option<string>, fileName: Option<string>, messageAudio: string)
    ensures var r := AttributeVerdict(AudioAttribute(false, title, performer), fileName, messageAudio);
      && (Present(title) && Present(performer) ==> r == PinnedText(performer.value + " — " + title.value))
      && (Present(title) && !Present(performer) ==> r == PinnedText(title.value))
      && (!Present(title) && Present(performer) ==> r == PinnedText(performer.value))
      && (!Present(title) && !Present(performer) ==> r == PinnedText(fileName.GetOr(messageAudio)))
  {
  }

  /** A track titled "Song" by "Band" is labelled "Band — Song". */
  lemma AudioVerdictSongByBand()
    ensures AttributeVerdict(AudioAttribute(false, Some("Song"), Some("Band")), None, "Audio") == PinnedText("Band — Song")
    ensures "Band — Song" != "Song — Band"
  {
    AudioVerdictPerformerFirst(Some("Song"), Some("Band"), None, "Audio");
    assert "Band — Song"[0] != "Song — Band"[0];
  }

  /**
   * The audio label as the surrounding names intend it: the track's title first. It agrees
   * with the label the code builds except when both title and performer are non-empty.
   */
  function IntendedAudioLabel(title: Option<string>, performer: Option<string>, fileName: Option<string>, messageAudio: string): (r: string)
    ensures Present(title) && Present(performer) ==> r == title.value + " — " + performer.value
    ensures !(Present(title) && Present(performer)) ==>
      PinnedText(r) == AttributeVerdict(AudioAttribute(false, title, performer), fileName, messageAudio)
  {
    AudioLabel(title, performer, fileName, messageAudio)
  }

  ghost predicate FirstDecisiveAt(attributes: seq<FileAttribute>, k: int) {
    0 <= k < |attributes| && Decisive(attributes[k]) && forall j | 0 <= j < k :: !Decisive(attributes[j])
  }

  /** The verdict of the first decisive attribute, if any. */
  function FileVerdict(attributes: seq<FileAttribute>, fileName: Option<string>, messageAudio: string): (r: Option<PinnedMediaType>)
    ensures r.None? <==> forall k | 0 <= k < |attributes| :: !Decisive(attributes[k])
    ensures r.Some? ==>
      exists k :: FirstDecisiveAt(attributes, k) && r.value == AttributeVerdict(attributes[k], fileName, messageAudio)
  {
    if |attributes| == 0 then None
    else if Decisive(attributes[0]) then Some(AttributeVerdict(attributes[0], fileName, messageAudio))
    else
      var rest := FileVerdict(attributes[1..], fileName, messageAudio);
      assert forall k | 1 <= k < |attributes| :: attributes[k] == attributes[1..][k - 1];
      rest
  }

  /**
   * The scan over the pinned message's media, in the order of the Swift loop: every image,
   * file, map or contact overwrites the classification so far, and a decisive attribute of a
   * non-animated file ends the scan at once.
   */
  function ScanMedia(media: seq<Media>, current: PinnedMediaType, messageAudio: string): (r: PinnedMediaType)
  {
    if |media| == 0 then current
    else
      match media[0]
      case ImageMedia(_) => ScanMedia(media[1..], PinnedPhoto, messageAudio)
      case FileMedia(file) =>
        if file.isAnimated then ScanMedia(media[1..], PinnedGif, messageAudio)
        else (
          match FileVerdict(file.attributes, file.fileName, messageAudio)
          case Some(verdict) => verdict
          case None => ScanMedia(media[1..], PinnedFile, messageAudio))
      case MapMedia => ScanMedia(media[1..], PinnedLocation, messageAudio)
      case ContactMedia => ScanMedia(media[1..], PinnedContact, messageAudio)
      case _ => ScanMedia(media[1..], current, messageAudio)
  }

  /** The pinned message (absent when the reply target is not loaded) classified. */
  function ClassifyPinned(pinned: Option<LinkedMessage>, messageAudio: string): PinnedMediaType
  {
    match pinned
    case None => PinnedDeleted
    case Some(m) => ScanMedia(m.media, PinnedText(m.text), messageAudio)
  }

  // A reference definition of the classification, stated per media item.

  /** The classification an item ends the scan with, if it ends it. */
  function StopVerdict(m: Media, messageAudio: string): Option<PinnedMediaType> {
    if m.FileMedia? && !m.file.isAnimated then FileVerdict(m.file.attributes, m.file.fileName, messageAudio)
    else None
  }

  /** The classification an item that does not end the scan gives, if it is recognized. */
  function Recognized(m: Media): Option<PinnedMediaType> {
    match m
    case ImageMedia(_) => Some(PinnedPhoto)
    case FileMedia(file) => Some(if file.isAnimated then PinnedGif else PinnedFile)
    case MapMedia => Some(PinnedLocation)
    case ContactMedia => Some(PinnedContact)
    case _ => None
  }

  /** The classification of the last recognized item of `media`, or `fallback` if none is. */
  function LastRecognized(media: seq<Media>, fallback: PinnedMediaType): PinnedMediaType {
    if |media| == 0 then fallback
    else
      match Recognized(media[|media| - 1])
      case Some(t) => t
      case None => LastRecognized(media[..|media| - 1], fallback)
  }

  ghost predicate FirstStopAt(media: seq<Media>, i: int, messageAudio: string) {
    0 <= i < |media| && StopVerdict(media[i], messageAudio).Some? &&
    forall j | 0 <= j < i :: StopVerdict(media[j], messageAudio).None?
  }

  lemma {:induction false} LastRecognizedCons(m: Media, media: seq<Media>, fallback: PinnedMediaType)
    ensures LastRecognized([m] + media, fallback) == LastRecognized(media, Recognized(m).GetOr(fallback))
    decreases |media|
  {
    if |media| > 0 {
      assert ([m] + media)[..|[m] + media| - 1] == [m] + media[..|media| - 1];
      LastRecognizedCons(m, media[..|media| - 1], fallback);
    }
  }

  /**
   * The scan agrees with the reference definition: the first item that ends the scan decides;
   * when no item ends it, the last recognized item decides, and without one the starting
   * classification stands.
   */
  lemma {:induction false} ScanMediaReference(media: seq<Media>, current: PinnedMediaType, messageAudio: string)
    ensures forall i | FirstStopAt(media, i, messageAudio) ::
      ScanMedia(media, current, messageAudio) == StopVerdict(media[i], messageAudio).value
    ensures (forall i | 0 <= i < |media| :: StopVerdict(media[i], messageAudio).None?) ==>
      ScanMedia(media, current, messageAudio) == LastRecognized(media, current)
    decreases |media|
  {
    if |media| > 0 {
      var m := media[0];
      var rest := media[1..];
      assert media == [m] + rest;
      if StopVerdict(m, messageAudio).Some? {
        forall i | FirstStopAt(media, i, messageAudio)
          ensures ScanMedia(media, current, messageAudio) == StopVerdict(media[i], messageAudio).value
        {
          assert i == 0;
        }
      } else {
        var next := Recognized(m).GetOr(current);
        assert ScanMedia(media, current, messageAudio) == ScanMedia(rest, next, messageAudio);
        ScanMediaReference(rest, next, messageAudio);
        forall i | FirstStopAt(media, i, messageAudio)
          ensures ScanMedia(media, current, messageAudio) == StopVerdict(media[i], messageAudio).value
        {
          assert FirstStopAt(rest, i - 1, messageAudio);
        }
        if forall i | 0 <= i < |media| :: StopVerdict(media[i], messageAudio).None? {
          assert forall i | 0 <= i < |rest| :: StopVerdict(rest[i], messageAudio).None? by {
            forall i | 0 <= i < |rest| ensures StopVerdict(rest[i], messageAudio).None? {
              assert rest[i] == media[i + 1];
            }
          }
          LastRecognizedCons(m, rest, current);
        }
      }
    }
  }

  /**
   * The whole classification: a missing pinned message is "deleted"; otherwise the first
   * decisive file attribute decides, else the last image, file, map or contact, else the
   * pinned message's own text.
   */
  lemma ClassifyPinnedReference(pinned: Option<LinkedMessage>, messageAudio: string)
    ensures pinned.None? ==> ClassifyPinned(pinned, messageAudio) == PinnedDeleted
    ensures pinned.Some? ==> forall i | FirstStopAt(pinned.value.media, i, messageAudio) ::
      ClassifyPinned(pinned, messageAudio) == StopVerdict(pinned.value.media[i], messageAudio).value
    ensures pinned.Some? && (forall i | 0 <= i < |pinned.value.media| :: StopVerdict(pinned.value.media[i], messageAudio).None?) ==>
      ClassifyPinned(pinned, messageAudio) == LastRecognized(pinned.value.media, PinnedText(pinned.value.text))
  {
    if pinned.Some? {
      ScanMediaReference(pinned.value.media, PinnedText(pinned.value.text), messageAudio);
    }
  }
}
