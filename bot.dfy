/**
 * The Telegram front end: how an incoming message moves a user through the
 * dialog states, which replies it produces, and how a failed inspection is
 * classified for the log.
 */
module Telegram {
  import opened Wrappers
  import opened Entity
  import opened Text
  import opened Storage
  import opened App
  import Quality

  // ---------------------------------------------------------------------------
  // Error classification
  // ---------------------------------------------------------------------------

  /** The phrases the classifier looks for, in its order. */
  const QualityPhrase := "quality gate failed"
  const AlignmentPhrase := "alignment failed"
  const DecodePhrase := "failed to decode"
  const OriginalPhrase := "original photo is not found"
  const DetectorPhrase := "detector is not configured"

  /**
   * The log tag for an inspection error: the first of the known phrases that
   * occurs in the lower-cased message decides, in a fixed order.
   */
  function ClassifyInspectionError(err: Option<string>): (tag: string)
    ensures tag == "none" <==> err.None?
  {
    match err
    case None => "none"
    case Some(e) => Tag(ToLower(e))
  }

  /** The tag of an already lower-cased message. */
  function Tag(msg: string): (tag: string)
    ensures tag != "none"
  {
    if Contains(msg, QualityPhrase) then "quality_gate"
    else if Contains(msg, AlignmentPhrase) then "alignment"
    else if Contains(msg, DecodePhrase) then "decode"
    else if Contains(msg, OriginalPhrase) then "missing_original"
    else if Contains(msg, DetectorPhrase) then "detector_not_configured"
    else if Contains(msg, EmptyImage) then "empty_image"
    else "unknown"
  }

  /** Text without upper-case letters is its own lower-casing. */
  lemma ToLowerOfLower(s: string)
    requires forall i :: 0 <= i < |s| ==> !('A' <= s[i] <= 'Z')
    ensures ToLower(s) == s
  {
  }

  /** Lower-casing is idempotent, so classification does not depend on letter case. */
  lemma ClassifyIgnoresCase(e: string)
    ensures ClassifyInspectionError(Some(ToLower(e))) == ClassifyInspectionError(Some(e))
  {
    assert ToLower(ToLower(e)) == ToLower(e);
  }

  /** Lower-casing leaves a prefix without upper-case letters in place. */
  lemma LowerAfterPrefix(prefix: string, rest: string)
    requires forall i :: 0 <= i < |prefix| ==> !('A' <= prefix[i] <= 'Z')
    ensures ToLower(prefix + rest) == prefix + ToLower(rest)
  {
    ToLowerConcat(prefix, rest);
    ToLowerOfLower(prefix);
  }

  /** A text that starts with a phrase contains it. */
  lemma StartsWithPhrase(prefix: string, rest: string, phrase: string)
    requires |phrase| <= |prefix| && prefix[..|phrase|] == phrase
    ensures Contains(prefix + rest, phrase)
  {
    assert (prefix + rest)[0..|phrase|] == phrase;
    ContainsAt(prefix + rest, phrase, 0);
  }

  /**
   * Every quality-gate failure is tagged as such, whatever the image label,
   * including the empty-image failure that also mentions "empty image".
   */
  lemma QualityFailureClassified(imageLabel: string, f: Quality.QualityFailure)
    ensures ClassifyInspectionError(Some(Quality.QualityMessage(imageLabel, f))) == "quality_gate"
  {
    var rest := imageLabel + ": " + Quality.Detail(f);
    assert Quality.QualityMessage(imageLabel, f) == Quality.QualityPrefix + rest;
    QualityPrefixTagged(rest);
  }

  /** Whatever follows the quality-gate prefix, the message is tagged as a quality failure. */
  lemma QualityPrefixTagged(rest: string)
    ensures Tag(ToLower(Quality.QualityPrefix + rest)) == "quality_gate"
  {
    LowerAfterPrefix(Quality.QualityPrefix, rest);
    StartsWithPhrase(Quality.QualityPrefix, ToLower(rest), QualityPhrase);
  }

  /** The prefix of every image-alignment error. */
  const AlignmentPrefix := "alignment failed: "

  /** An alignment error is tagged as such unless its detail mentions a quality gate. */
  lemma AlignmentFailureClassified(detail: string)
    requires 'q' !in detail && 'Q' !in detail
    ensures ClassifyInspectionError(Some(AlignmentPrefix + detail)) == "alignment"
  {
    LowerAfterPrefix(AlignmentPrefix, detail);
    var msg := AlignmentPrefix + ToLower(detail);
    assert 'q' !in ToLower(detail) by {
      forall i | 0 <= i < |detail|
        ensures ToLower(detail)[i] != 'q'
      {
        assert detail[i] != 'q' && detail[i] != 'Q';
      }
    }
    assert !Contains(msg, QualityPhrase) by {
      MissingChar(msg, QualityPhrase, 0);
    }
    StartsWithPhrase(AlignmentPrefix, ToLower(detail), AlignmentPhrase);
  }

  /** The decoder's error text. */
  const DecodeFailure := "failed to decode image"

  /** The detector's error text for an empty input. */
  const EmptyImage := "empty image"

  lemma DecodeFailureLacksEarlierPhrases()
    ensures !Contains(DecodeFailure, QualityPhrase) && !Contains(DecodeFailure, AlignmentPhrase)
  {
    MissingChar(DecodeFailure, QualityPhrase, 0);
    MissingChar(DecodeFailure, AlignmentPhrase, 4);
  }

  /** The decoder's error is tagged as a decoding failure. */
  lemma DecodeFailureClassified()
    ensures ClassifyInspectionError(Some(DecodeFailure)) == "decode"
  {
    ToLowerOfLower(DecodeFailure);
    DecodeFailureLacksEarlierPhrases();
    ContainsAt(DecodeFailure, DecodePhrase, 0);
  }

  lemma OriginalMissingLacksEarlierPhrases()
    ensures !Contains(OriginalMissing, QualityPhrase) && !Contains(OriginalMissing, AlignmentPhrase)
    ensures !Contains(OriginalMissing, DecodePhrase)
  {
    MissingChar(OriginalMissing, QualityPhrase, 0);
    MissingChar(OriginalMissing, AlignmentPhrase, 6);
    MissingChar(OriginalMissing, DecodePhrase, 4);
  }

  /** A reference photo that was never stored is tagged as missing. */
  lemma OriginalMissingClassified()
    ensures ClassifyInspectionError(Some(OriginalMissing)) == "missing_original"
  {
    ToLowerOfLower(OriginalMissing);
    OriginalMissingLacksEarlierPhrases();
    ContainsAt(OriginalMissing, OriginalPhrase, 0);
  }

  lemma DetectorMissingLacksEarlierPhrases()
    ensures !Contains(DetectorMissing, QualityPhrase) && !Contains(DetectorMissing, AlignmentPhrase)
    ensures !Contains(DetectorMissing, DecodePhrase) && !Contains(DetectorMissing, OriginalPhrase)
  {
    MissingChar(DetectorMissing, QualityPhrase, 0);
    MissingChar(DetectorMissing, AlignmentPhrase, 0);
    MissingChar(DetectorMissing, DecodePhrase, 1);
  }

  /** A service without a detector is tagged as not configured. */
  lemma DetectorMissingClassified()
    ensures ClassifyInspectionError(Some(DetectorMissing)) == "detector_not_configured"
  {
    ToLowerOfLower(DetectorMissing);
    DetectorMissingLacksEarlierPhrases();
    ContainsAt(DetectorMissing, DetectorPhrase, 0);
  }

  lemma EmptyImageLacksEarlierPhrases()
    ensures !Contains(EmptyImage, QualityPhrase) && !Contains(EmptyImage, AlignmentPhrase)
    ensures !Contains(EmptyImage, DecodePhrase) && !Contains(EmptyImage, OriginalPhrase)
    ensures !Contains(EmptyImage, DetectorPhrase)
  {
  }

  /**
   * The detector's bare empty-input error is tagged as an empty image (the
   * quality gate's own empty-image failure is tagged as a quality failure).
   */
  lemma EmptyImageClassified()
    ensures ClassifyInspectionError(Some(EmptyImage)) == "empty_image"
  {
    ToLowerOfLower(EmptyImage);
    EmptyImageLacksEarlierPhrases();
    ContainsAt(EmptyImage, "empty image", 0);
  }

  /** A message with none of the known phrases is unknown. */
  lemma EmptyMessageUnknown()
    ensures ClassifyInspectionError(Some("")) == "unknown"
  {
  }

  // ---------------------------------------------------------------------------
  // Messages and replies
  // ---------------------------------------------------------------------------

  /** The commands the bot knows; any other command keeps its name. */
  datatype Command = Start | Help | Check | Cancel | Other(name: string)

  /** One size of a photo as Telegram delivers it, smallest first. */
  datatype PhotoSize = PhotoSize(FileID: string, Width: int, Height: int)

  /** An incoming message: the sender, the chat, the command if it is one, and the photo sizes. */
  datatype Message = Message(FromID: int, ChatID: int, Command: Option<Command>, Photos: seq<PhotoSize>)

  /** What the bot sends back, in the order it sends it. */
  datatype Reply =
    | StartText
    | HelpText
    | AwaitingOriginalText
    | AwaitingDefectText
    | CancelledText
    | OnlyCancelText
    | ProcessingErrorText
    | ProcessingText
    | DefectsFoundText
    | NoDefectsText
    | PhotoReply(data: seq<Byte>)

  /**
   * The photo a message carries: nothing for a message without photos,
   * otherwise the download of the largest size, which Telegram lists last.
   */
  function ExtractPhoto(msg: Message, download: string -> Result<seq<Byte>>): Result<seq<Byte>>
  {
    if |msg.Photos| == 0 then Ok([])
    else download(msg.Photos[|msg.Photos| - 1].FileID)
  }

  /** Only the largest size is downloaded: smaller sizes in front do not matter. */
  lemma ExtractPhotoUsesLargest(msg: Message, smaller: seq<PhotoSize>, download: string -> Result<seq<Byte>>)
    requires |msg.Photos| > 0
    ensures ExtractPhoto(msg.(Photos := smaller + msg.Photos), download) == ExtractPhoto(msg, download)
  {
  }

  /** A message without photos yields no data and never calls the download. */
  lemma NoPhotoNoData(msg: Message, download: string -> Result<seq<Byte>>)
    requires msg.Photos == []
    ensures ExtractPhoto(msg, download) == Ok([])
  {
  }

  /** A photo is taken only when it downloaded and is not empty. */
  predicate Accepted(photo: Result<seq<Byte>>)
  {
    photo.Ok? && |photo.value| > 0
  }

  /**
   * The dialog: the state a user is in after one message, given the state
   * before it and the photo the message carried.
   */
  function Transition(state: UserState, msg: Message, photo: Result<seq<Byte>>): UserState
  {
    match state
    case MainMenu =>
      if msg.Command == Some(Check) then AwaitingOriginalPhoto else MainMenu
    case AwaitingOriginalPhoto =>
      if msg.Command == Some(Cancel) then MainMenu
      else if msg.Command.Some? || !Accepted(photo) then AwaitingOriginalPhoto
      else AwaitingDefectPhoto
    case AwaitingDefectPhoto =>
      if msg.Command == Some(Cancel) then MainMenu
      else if msg.Command.Some? || !Accepted(photo) then AwaitingDefectPhoto
      else MainMenu
    case _ => MainMenu
  }

  /** The first reply to a message in a given state. */
  function FirstReply(state: UserState, msg: Message, photo: Result<seq<Byte>>): Reply
  {
    match state
    case MainMenu =>
      (match msg.Command
       case Some(Help) => HelpText
       case Some(Check) => AwaitingOriginalText
       case _ => StartText)
    case AwaitingOriginalPhoto =>
      if msg.Command == Some(Cancel) then CancelledText
      else if msg.Command.Some? then OnlyCancelText
      else if photo.Err? then ProcessingErrorText
      else if |photo.value| == 0 then AwaitingOriginalText
      else AwaitingDefectText
    case AwaitingDefectPhoto =>
      if msg.Command == Some(Cancel) then CancelledText
      else if msg.Command.Some? then OnlyCancelText
      else if photo.Err? then ProcessingErrorText
      else if |photo.value| == 0 then AwaitingDefectText
      else ProcessingText
    case _ => StartText
  }

  /** Does the message hand over the photo to compare, so that processing starts? */
  predicate StartsProcessing(state: UserState, msg: Message, photo: Result<seq<Byte>>)
  {
    state == AwaitingDefectPhoto && msg.Command.None? && Accepted(photo)
  }

  /** Does the message hand over the reference photo? */
  predicate StoresOriginal(state: UserState, msg: Message, photo: Result<seq<Byte>>)
  {
    state == AwaitingOriginalPhoto && msg.Command.None? && Accepted(photo)
  }

  /** The replies that report the outcome of a comparison. */
  function ProcessingReplies(outcome: Result<InspectionOutput>): seq<Reply>
  {
    match outcome
    case Err(_) => [ProcessingErrorText]
    case Ok(out) =>
      if out.Result.HasDefects then
        [DefectsFoundText] + (if |out.Highlighted| > 0 then [PhotoReply(out.Highlighted)] else [])
      else [NoDefectsText]
  }

  // ---------------------------------------------------------------------------
  // Properties of the dialog
  // ---------------------------------------------------------------------------

  /** Every message leaves the user in one of the three live states. */
  lemma TransitionLive(state: UserState, msg: Message, photo: Result<seq<Byte>>)
    ensures Transition(state, msg, photo) in {MainMenu, AwaitingOriginalPhoto, AwaitingDefectPhoto}
  {
  }

  /** From the main menu only the check command moves the user on. */
  lemma MainMenuOnlyCheckMoves(msg: Message, photo: Result<seq<Byte>>)
    ensures Transition(MainMenu, msg, photo) != MainMenu <==> msg.Command == Some(Check)
  {
  }

  /** Cancel returns to the main menu from anywhere. */
  lemma CancelAlwaysReturns(state: UserState, msg: Message, photo: Result<seq<Byte>>)
    requires msg.Command == Some(Cancel)
    ensures Transition(state, msg, photo) == MainMenu
  {
  }

  /** While a photo is awaited, a failed, empty or missing photo changes nothing. */
  lemma RejectedPhotoKeepsState(state: UserState, msg: Message, photo: Result<seq<Byte>>)
    requires state in {AwaitingOriginalPhoto, AwaitingDefectPhoto}
    requires msg.Command.None? && !Accepted(photo)
    ensures Transition(state, msg, photo) == state
  {
  }

  /**
   * A full check: the check command, the reference photo and the photo to
   * compare bring the user back to the main menu, and only the last step
   * starts processing.
   */
  lemma CheckCycle(check: Message, original: Message, current: Message, p1: Result<seq<Byte>>, p2: Result<seq<Byte>>, p3: Result<seq<Byte>>)
    requires check.Command == Some(Check)
    requires original.Command.None? && Accepted(p2)
    requires current.Command.None? && Accepted(p3)
    ensures Transition(MainMenu, check, p1) == AwaitingOriginalPhoto
    ensures StoresOriginal(AwaitingOriginalPhoto, original, p2)
    ensures Transition(AwaitingOriginalPhoto, original, p2) == AwaitingDefectPhoto
    ensures StartsProcessing(AwaitingDefectPhoto, current, p3)
    ensures Transition(AwaitingDefectPhoto, current, p3) == MainMenu
  {
  }

  /** Processing starts exactly when the defect-photo step hands the user back to the main menu without a cancel. */
  lemma ProcessingIffLeavesDefectStep(msg: Message, photo: Result<seq<Byte>>)
    ensures StartsProcessing(AwaitingDefectPhoto, msg, photo) <==>
      (Transition(AwaitingDefectPhoto, msg, photo) == MainMenu && msg.Command != Some(Cancel))
  {
  }

  /** Whatever the outcome, processing produces at least one reply, and a photo only after "defects found". */
  lemma ProcessingRepliesShape(outcome: Result<InspectionOutput>)
    ensures 1 <= |ProcessingReplies(outcome)| <= 2
    ensures |ProcessingReplies(outcome)| == 2 ==>
      outcome.Ok? && outcome.value.Result.HasDefects && ProcessingReplies(outcome)[0] == DefectsFoundText
    ensures outcome.Err? <==> ProcessingReplies(outcome) == [ProcessingErrorText]
  {
    if outcome.Ok? {
      assert ProcessingReplies(outcome)[0] != ProcessingErrorText;
    }
  }

  // ---------------------------------------------------------------------------
  // The bot
  // ---------------------------------------------------------------------------

  /** The bot: the two services it drives and the file download it uses. */
  class Bot {
    const users: UserService
    const inspection: InspectionService
    const download: string -> Result<seq<Byte>>

    predicate Valid()
      reads users.repo
    {
      users.repo.Valid() && inspection.users == users
    }

    constructor (users: UserService, inspection: InspectionService, download: string -> Result<seq<Byte>>)
      requires users.repo.Valid() && inspection.users == users
      ensures this.users == users && this.inspection == inspection && this.download == download
      ensures Valid()
    {
      this.users := users;
      this.inspection := inspection;
      this.download := download;
    }

    /**
     * Handles one message: the sender is fetched (or created in the main
     * menu), and the message is dispatched on the sender's state. Returns the
     * replies in order and, as a ghost, the state the sender was in.
     */
    method HandleMessage(msg: Message) returns (replies: seq<Reply>, ghost before: UserState)
      requires Valid()
      modifies users.repo, users.repo.users.Values, inspection
      ensures Valid()
      ensures before == (if msg.FromID in old(users.repo.users) then old(users.repo.users[msg.FromID].State) else MainMenu)
      ensures msg.FromID in users.repo.users
      ensures users.repo.users[msg.FromID].State == Transition(before, msg, ExtractPhoto(msg, download))
      ensures forall k :: k in old(users.repo.users) && k != msg.FromID ==>
        k in users.repo.users && users.repo.users[k] == old(users.repo.users[k]) &&
        users.repo.users[k].State == old(users.repo.users[k].State)
      ensures users.repo.users.Keys == old(users.repo.users.Keys) + {msg.FromID}
      ensures inspection.originals ==
        (if StoresOriginal(before, msg, ExtractPhoto(msg, download))
         then old(inspection.originals)[msg.FromID := ExtractPhoto(msg, download).value]
         else old(inspection.originals))
      ensures replies ==
        [FirstReply(before, msg, ExtractPhoto(msg, download))] +
        (if StartsProcessing(before, msg, ExtractPhoto(msg, download))
         then ProcessingReplies(DiffOutcome(inspection.detector, inspection.originals, msg.FromID, ExtractPhoto(msg, download).value))
         else [])
    {
      var user := users.Get(msg.FromID, msg.ChatID);
      before := user.State;
      match user.State
      case MainMenu =>
        replies := HandleMainMenu(msg);
      case AwaitingOriginalPhoto =>
        replies := HandleAwaitingOriginal(msg);
      case AwaitingDefectPhoto =>
        replies := HandleAwaitingDefect(msg);
      case _ =>
        var _ := users.Cancel(msg.FromID, msg.ChatID);
        replies := [StartText];
    }

    /** In the main menu: help and start answer, check begins a check, anything else shows the start text. */
    method HandleMainMenu(msg: Message) returns (replies: seq<Reply>)
      requires Valid()
      requires msg.FromID in users.repo.users && users.repo.users[msg.FromID].State == MainMenu
      modifies users.repo, users.repo.users.Values
      ensures Valid()
      ensures users.repo.users.Keys == old(users.repo.users.Keys)
      ensures msg.FromID in users.repo.users
      ensures users.repo.users[msg.FromID].State == Transition(MainMenu, msg, ExtractPhoto(msg, download))
      ensures forall k :: k in old(users.repo.users) && k != msg.FromID ==>
        users.repo.users[k] == old(users.repo.users[k]) && users.repo.users[k].State == old(users.repo.users[k].State)
      ensures replies == [FirstReply(MainMenu, msg, ExtractPhoto(msg, download))]
    {
      if msg.Command == Some(Help) {
        replies := [HelpText];
      } else if msg.Command == Some(Check) {
        var _ := users.BeginCheck(msg.FromID, msg.ChatID);
        replies := [AwaitingOriginalText];
      } else {
        replies := [StartText];
      }
    }

    /**
     * Waiting for the reference photo: cancel returns to the menu, other
     * commands are refused, and a downloaded non-empty photo is stored.
     */
    method HandleAwaitingOriginal(msg: Message) returns (replies: seq<Reply>)
      requires Valid()
      requires msg.FromID in users.repo.users && users.repo.users[msg.FromID].State == AwaitingOriginalPhoto
      modifies users.repo, users.repo.users.Values, inspection
      ensures Valid()
      ensures users.repo.users.Keys == old(users.repo.users.Keys)
      ensures msg.FromID in users.repo.users
      ensures users.repo.users[msg.FromID].State == Transition(AwaitingOriginalPhoto, msg, ExtractPhoto(msg, download))
      ensures forall k :: k in old(users.repo.users) && k != msg.FromID ==>
        users.repo.users[k] == old(users.repo.users[k]) && users.repo.users[k].State == old(users.repo.users[k].State)
      ensures inspection.originals ==
        (if StoresOriginal(AwaitingOriginalPhoto, msg, ExtractPhoto(msg, download))
         then old(inspection.originals)[msg.FromID := ExtractPhoto(msg, download).value]
         else old(inspection.originals))
      ensures replies == [FirstReply(AwaitingOriginalPhoto, msg, ExtractPhoto(msg, download))]
    {
      if msg.Command.Some? {
        if msg.Command.value == Cancel {
          var _ := users.Cancel(msg.FromID, msg.ChatID);
          return [CancelledText];
        }
        return [OnlyCancelText];
      }
      var photo := ExtractPhoto(msg, download);
      if photo.Err? {
        return [ProcessingErrorText];
      }
      if |photo.value| == 0 {
        return [AwaitingOriginalText];
      }
      var _ := inspection.AcceptOriginalPhoto(msg.FromID, msg.ChatID, photo.value);
      replies := [AwaitingDefectText];
    }

    /**
     * Waiting for the photo to compare: cancel returns to the menu, other
     * commands are refused, and a downloaded non-empty photo returns the user
     * to the menu and is compared with the stored reference.
     */
    method HandleAwaitingDefect(msg: Message) returns (replies: seq<Reply>)
      requires Valid()
      requires msg.FromID in users.repo.users && users.repo.users[msg.FromID].State == AwaitingDefectPhoto
      modifies users.repo, users.repo.users.Values
      ensures Valid()
      ensures users.repo.users.Keys == old(users.repo.users.Keys)
      ensures msg.FromID in users.repo.users
      ensures users.repo.users[msg.FromID].State == Transition(AwaitingDefectPhoto, msg, ExtractPhoto(msg, download))
      ensures forall k :: k in old(users.repo.users) && k != msg.FromID ==>
        users.repo.users[k] == old(users.repo.users[k]) && users.repo.users[k].State == old(users.repo.users[k].State)
      ensures replies ==
        [FirstReply(AwaitingDefectPhoto, msg, ExtractPhoto(msg, download))] +
        (if StartsProcessing(AwaitingDefectPhoto, msg, ExtractPhoto(msg, download))
         then ProcessingReplies(DiffOutcome(inspection.detector, inspection.originals, msg.FromID, ExtractPhoto(msg, download).value))
         else [])
    {
      if msg.Command.Some? {
        if msg.Command.value == Cancel {
          var _ := users.Cancel(msg.FromID, msg.ChatID);
          return [CancelledText];
        }
        return [OnlyCancelText];
      }
      var photo := ExtractPhoto(msg, download);
      if photo.Err? {
        return [ProcessingErrorText];
      }
      if |photo.value| == 0 {
        return [AwaitingDefectText];
      }
      var _ := inspection.AcceptDefectPhoto(msg.FromID, msg.ChatID, photo.value);
      var rest, _ := ProcessDefectPhoto(msg.FromID, msg.ChatID, photo.value);
      replies := [ProcessingText] + rest;
    }

    /**
     * Compares the photo with the user's reference and reports the outcome;
     * the second result is the tag under which a failure is logged.
     */
    method ProcessDefectPhoto(userID: int, chatID: int, photo: seq<Byte>) returns (replies: seq<Reply>, reason: string)
      ensures replies == ProcessingReplies(DiffOutcome(inspection.detector, inspection.originals, userID, photo))
      ensures reason == ClassifyInspectionError(
        match DiffOutcome(inspection.detector, inspection.originals, userID, photo)
        case Err(e) => Some(e)
        case Ok(_) => None)
    {
      var r, _ := inspection.ProcessDefectPhotoDiff(userID, photo);
      if r.Err? {
        reason := ClassifyInspectionError(Some(r.msg));
        return [ProcessingErrorText], reason;
      }
      reason := ClassifyInspectionError(None);
      var result := r.value.Result;
      if result.HasDefects {
        replies := [DefectsFoundText];
        if |r.value.Highlighted| > 0 {
          replies := replies + [PhotoReply(r.value.Highlighted)];
        }
        return;
      }
      replies := [NoDefectsText];
    }
  }
}
