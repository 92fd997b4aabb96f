/** Domain entities: defect boxes, inspection results and bot users. */
module Entity {

  /** One byte of an encoded image. */
  newtype Byte = b: int | 0 <= b < 256

  /**
   * A candidate defect box: top-left corner, sides, the rectangle area used for
   * ranking and a short diagnostic reason.
   */
  datatype DefectArea = DefectArea(X: int, Y: int, Width: int, Height: int, Area: int, Reason: string)

  /** The outcome of one inspection call. */
  datatype InspectionResult = InspectionResult(
    ImageWidth: int,
    ImageHeight: int,
    Defects: seq<DefectArea>,
    HasDefects: bool)

  /** Go's `a / 2` on int: the quotient is truncated toward zero. */
  function Half(a: int): (q: int)
    ensures a >= 0 ==> 0 <= a - 2 * q <= 1
    ensures a < 0 ==> -1 <= a - 2 * q <= 0
  {
    if a >= 0 then a / 2 else -((-a) / 2)
  }

  /** The centre of a box, with Go's truncating integer division. */
  function Center(d: DefectArea): (c: (int, int))
    ensures d.Width >= 0 ==> d.X <= c.0 <= d.X + d.Width
    ensures d.Height >= 0 ==> d.Y <= c.1 <= d.Y + d.Height
    ensures d.Width <= 0 ==> d.X + d.Width <= c.0 <= d.X
    ensures d.Height <= 0 ==> d.Y + d.Height <= c.1 <= d.Y
  {
    (d.X + Half(d.Width), d.Y + Half(d.Height))
  }

  /** The documented example: the box at (10, 20) of size 8 by 6 has its centre at (14, 23). */
  lemma CenterExample()
    ensures Center(DefectArea(10, 20, 8, 6, 0, "")) == (14, 23)
  {
  }

  /** Moving a box by k along both axes moves its centre by k; the other fields do not matter. */
  lemma CenterTranslates(d: DefectArea, k: int)
    ensures Center(d.(X := d.X + k, Y := d.Y + k)) == (Center(d).0 + k, Center(d).1 + k)
    ensures Center(d.(Area := 0, Reason := "")) == Center(d)
  {
  }

  /** The dialog states a user can be in; the last two drive the two-photo check. */
  datatype UserState =
    | MainMenu
    | AwaitingPhoto
    | Processing
    | AwaitingOriginalPhoto
    | AwaitingDefectPhoto

  /** A bot user. The identifiers never change after creation; the state does. */
  class User {
    const ID: int
    const ChatID: int
    var State: UserState

    /** A new user starts in the main menu with the given identifiers. */
    constructor (userID: int, chatID: int)
      ensures ID == userID && ChatID == chatID && State == MainMenu
    {
      ID := userID;
      ChatID := chatID;
      State := MainMenu;
    }

    /** Sets the state to exactly the argument; calling it twice with one value is the same as once. */
    method SetState(state: UserState)
      modifies this
      ensures State == state
    {
      State := state;
    }
  }
}
