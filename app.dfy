/**
 * The application services: the user service that moves users between
 * dialog states, and the inspection service that keeps each user's reference
 * photo and runs the detector.
 */
module App {
  import opened Wrappers
  import opened Entity
  import opened Storage

  /** Changes user states through the repository. */
  class UserService {
    const repo: MemoryUserRepository

    constructor (repo: MemoryUserRepository)
      ensures this.repo == repo
    {
      this.repo := repo;
    }

    /** The user, created in the main menu when unknown. */
    method Get(userID: int, chatID: int) returns (user: User)
      requires repo.Valid()
      modifies repo
      ensures repo.Valid()
      ensures userID in repo.users && repo.users[userID] == user && user.ID == userID
      ensures userID in old(repo.users) ==> user == old(repo.users)[userID] && repo.users == old(repo.users)
      ensures userID !in old(repo.users) ==>
        fresh(user) && user.ChatID == chatID && user.State == MainMenu && repo.users == old(repo.users)[userID := user]
    {
      user := repo.Get(userID, chatID);
    }

    /**
     * Fetches (or creates) the user, sets the state and saves the user. Only
     * that user's state changes; its identifiers do not.
     */
    method SetState(userID: int, chatID: int, state: UserState) returns (user: User)
      requires repo.Valid()
      modifies repo, repo.users.Values
      ensures repo.Valid()
      ensures user.ID == userID && user.State == state
      ensures repo.users == old(repo.users)[userID := user]
      ensures userID in old(repo.users) ==> user == old(repo.users)[userID]
      ensures userID !in old(repo.users) ==> fresh(user) && user.ChatID == chatID
      ensures forall k :: k in old(repo.users) && k != userID ==> repo.users[k].State == old(repo.users[k].State)
    {
      user := repo.Get(userID, chatID);
      user.SetState(state);
      repo.Save(user);
    }

    /** Starts a check: the user waits for the reference photo. */
    method BeginCheck(userID: int, chatID: int) returns (user: User)
      requires repo.Valid()
      modifies repo, repo.users.Values
      ensures repo.Valid()
      ensures user.ID == userID && user.State == AwaitingOriginalPhoto
      ensures repo.users == old(repo.users)[userID := user]
      ensures userID in old(repo.users) ==> user == old(repo.users)[userID]
      ensures userID !in old(repo.users) ==> fresh(user) && user.ChatID == chatID
      ensures forall k :: k in old(repo.users) && k != userID ==> repo.users[k].State == old(repo.users[k].State)
    {
      user := SetState(userID, chatID, AwaitingOriginalPhoto);
    }

    /** Back to the main menu. */
    method Cancel(userID: int, chatID: int) returns (user: User)
      requires repo.Valid()
      modifies repo, repo.users.Values
      ensures repo.Valid()
      ensures user.ID == userID && user.State == MainMenu
      ensures repo.users == old(repo.users)[userID := user]
      ensures userID in old(repo.users) ==> user == old(repo.users)[userID]
      ensures userID !in old(repo.users) ==> fresh(user) && user.ChatID == chatID
      ensures forall k :: k in old(repo.users) && k != userID ==> repo.users[k].State == old(repo.users[k].State)
    {
      user := SetState(userID, chatID, MainMenu);
    }
  }

  /**
   * The detector as the services see it: inspection of one photo, comparison
   * of a reference photo with a current one, and drawing boxes onto a photo.
   */
  datatype Detector = Detector(
    inspect: seq<Byte> -> Result<InspectionResult>,
    inspectDiff: (seq<Byte>, seq<Byte>) -> Result<InspectionResult>,
    highlight: (seq<Byte>, InspectionResult) -> Result<seq<Byte>>)

  /** The result of an inspection and the annotated photo (empty when there is none). */
  datatype InspectionOutput = InspectionOutput(Result: InspectionResult, Highlighted: seq<Byte>)

  /** One call the service makes to the detector, in order. */
  datatype DetectorCall =
    | InspectCall(photo: seq<Byte>)
    | InspectDiffCall(base: seq<Byte>, current: seq<Byte>)
    | HighlightCall(photo: seq<Byte>, result: InspectionResult)

  const DetectorMissing := "detector is not configured"
  const OriginalMissing := "original photo is not found"

  /** The annotated photo for a result: only with defects, and empty when drawing fails. */
  function Highlighting(d: Detector, photo: seq<Byte>, result: InspectionResult): seq<Byte>
  {
    if !result.HasDefects then []
    else match d.highlight(photo, result)
      case Ok(h) => h
      case Err(_) => []
  }

  /**
   * What comparing a user's reference with the current photo yields, given
   * the detector and the stored references.
   */
  function DiffOutcome(detector: Option<Detector>, originals: map<int, seq<Byte>>, userID: int, current: seq<Byte>)
    : Result<InspectionOutput>
  {
    if detector.None? then Err(DetectorMissing)
    else if userID !in originals || originals[userID] == [] then Err(OriginalMissing)
    else match detector.value.inspectDiff(originals[userID], current)
      case Err(e) => Err(e)
      case Ok(result) => Ok(InspectionOutput(result, Highlighting(detector.value, current, result)))
  }

  /** Runs the detector, then highlights; the highlight call is made only when there are defects. */
  method InspectAndHighlight(d: Detector, inspected: Result<InspectionResult>, photo: seq<Byte>)
    returns (r: Result<InspectionOutput>, calls: seq<DetectorCall>)
    ensures inspected.Err? ==> r == Err(inspected.msg) && calls == []
    ensures inspected.Ok? ==>
      && r == Ok(InspectionOutput(inspected.value, Highlighting(d, photo, inspected.value)))
      && calls == (if inspected.value.HasDefects then [HighlightCall(photo, inspected.value)] else [])
  {
    calls := [];
    if inspected.Err? {
      return Err(inspected.msg), calls;
    }
    var result := inspected.value;
    var highlighted: seq<Byte> := [];
    if result.HasDefects {
      calls := calls + [HighlightCall(photo, result)];
      var h := d.highlight(photo, result);
      if h.Ok? {
        highlighted := h.value;
      }
    }
    r := Ok(InspectionOutput(result, highlighted));
  }

  /** Keeps each user's reference photo between the two steps of a check. */
  class InspectionService {
    const users: UserService
    const detector: Option<Detector>
    var originals: map<int, seq<Byte>>

    constructor (users: UserService, detector: Option<Detector>)
      ensures this.users == users && this.detector == detector && originals == map[]
    {
      this.users := users;
      this.detector := detector;
      originals := map[];
    }

    /**
     * Stores the photo as the user's reference, replacing any earlier one,
     * and then moves the user on to wait for the photo to compare.
     */
    method AcceptOriginalPhoto(userID: int, chatID: int, photo: seq<Byte>) returns (user: User)
      requires users.repo.Valid()
      modifies this, users.repo, users.repo.users.Values
      ensures users.repo.Valid()
      ensures originals == old(originals)[userID := photo]
      ensures user.ID == userID && user.State == AwaitingDefectPhoto
      ensures users.repo.users == old(users.repo.users)[userID := user]
      ensures userID in old(users.repo.users) ==> user == old(users.repo.users)[userID]
      ensures userID !in old(users.repo.users) ==> fresh(user) && user.ChatID == chatID
      ensures forall k :: k in old(users.repo.users) && k != userID ==>
        users.repo.users[k].State == old(users.repo.users[k].State)
    {
      originals := originals[userID := photo];
      user := users.SetState(userID, chatID, AwaitingDefectPhoto);
    }

    /** Ignores the photo and returns the user to the main menu; the references are kept. */
    method AcceptDefectPhoto(userID: int, chatID: int, photo: seq<Byte>) returns (user: User)
      requires users.repo.Valid()
      modifies users.repo, users.repo.users.Values
      ensures users.repo.Valid()
      ensures user.ID == userID && user.State == MainMenu
      ensures users.repo.users == old(users.repo.users)[userID := user]
      ensures userID in old(users.repo.users) ==> user == old(users.repo.users)[userID]
      ensures userID !in old(users.repo.users) ==> fresh(user) && user.ChatID == chatID
      ensures forall k :: k in old(users.repo.users) && k != userID ==>
        users.repo.users[k].State == old(users.repo.users[k].State)
    {
      user := users.SetState(userID, chatID, MainMenu);
    }

    /**
     * Compares the user's reference photo with the current one. A missing
     * detector is reported first, then a missing or empty reference, and in
     * neither case is the detector called; a detector error is passed on as is.
     */
    method ProcessDefectPhotoDiff(userID: int, current: seq<Byte>)
      returns (r: Result<InspectionOutput>, calls: seq<DetectorCall>)
      ensures r == DiffOutcome(detector, originals, userID, current)
      ensures detector.None? ==> r == Err(DetectorMissing) && calls == []
      ensures detector.Some? && (userID !in originals || originals[userID] == []) ==>
        r == Err(OriginalMissing) && calls == []
      ensures detector.Some? && userID in originals && originals[userID] != [] ==>
        var base := originals[userID];
        var d := detector.value;
        && |calls| >= 1 && calls[0] == InspectDiffCall(base, current)
        && (d.inspectDiff(base, current).Err? ==> r == Err(d.inspectDiff(base, current).msg) && |calls| == 1)
        && (d.inspectDiff(base, current).Ok? ==>
              var result := d.inspectDiff(base, current).value;
              r == Ok(InspectionOutput(result, Highlighting(d, current, result)))
              && calls[1..] == (if result.HasDefects then [HighlightCall(current, result)] else []))
    {
      if detector.None? {
        return Err(DetectorMissing), [];
      }
      var d := detector.value;
      if userID !in originals || |originals[userID]| == 0 {
        return Err(OriginalMissing), [];
      }
      var base := originals[userID];
      var inspected := d.inspectDiff(base, current);
      var rest;
      r, rest := InspectAndHighlight(d, inspected, current);
      calls := [InspectDiffCall(base, current)] + rest;
    }

    /** Inspects one photo on its own. A missing detector is reported without any call. */
    method ProcessDefectPhoto(photo: seq<Byte>) returns (r: Result<InspectionOutput>, calls: seq<DetectorCall>)
      ensures detector.None? ==> r == Err(DetectorMissing) && calls == []
      ensures detector.Some? ==>
        var d := detector.value;
        && |calls| >= 1 && calls[0] == InspectCall(photo)
        && (d.inspect(photo).Err? ==> r == Err(d.inspect(photo).msg) && |calls| == 1)
        && (d.inspect(photo).Ok? ==>
              var result := d.inspect(photo).value;
              r == Ok(InspectionOutput(result, Highlighting(d, photo, result)))
              && calls[1..] == (if result.HasDefects then [HighlightCall(photo, result)] else []))
    {
      if detector.None? {
        return Err(DetectorMissing), [];
      }
      var d := detector.value;
      var inspected := d.inspect(photo);
      var rest;
      r, rest := InspectAndHighlight(d, inspected, photo);
      calls := [InspectCall(photo)] + rest;
    }
  }

  /** An output never carries a highlighted photo for a result without defects. */
  lemma NoHighlightWithoutDefects(d: Detector, photo: seq<Byte>, result: InspectionResult)
    requires !result.HasDefects
    ensures Highlighting(d, photo, result) == []
  {
  }
}
