/** The in-memory user store: a map from user ID to the user object, created on first read. */
module Storage {
  import opened Entity

  class MemoryUserRepository {
    /** The stored users; the repository hands out these very objects. */
    var users: map<int, User>

    /** Every user is stored under its own ID. */
    predicate Valid()
      reads this
    {
      forall k :: k in users ==> users[k].ID == k
    }

    /** The state of every stored user. */
    ghost function States(): map<int, UserState>
      reads this, users.Values
    {
      map k | k in users :: users[k].State
    }

    constructor ()
      ensures users == map[] && Valid()
    {
      users := map[];
    }

    /**
     * The stored user, or a new one in the main menu that is stored first.
     * The chat ID is used only for a new user. Never fails.
     */
    method Get(userID: int, chatID: int) returns (user: User)
      requires Valid()
      modifies this
      ensures Valid()
      ensures userID in users && users[userID] == user && user.ID == userID
      ensures userID in old(users) ==> user == old(users)[userID] && users == old(users)
      ensures userID !in old(users) ==>
        fresh(user) && user.ChatID == chatID && user.State == MainMenu && users == old(users)[userID := user]
    {
      if userID in users {
        return users[userID];
      }
      user := new User(userID, chatID);
      users := users[userID := user];
    }

    /** Stores the user under its ID, replacing any earlier entry. Never fails. */
    method Save(user: User)
      requires Valid()
      modifies this
      ensures Valid()
      ensures users == old(users)[user.ID := user]
    {
      users := users[user.ID := user];
    }

    /** Sets the state of a stored user; an unknown ID changes nothing and creates no user. Never fails. */
    method UpdateState(userID: int, state: UserState)
      requires Valid()
      modifies if userID in users then {users[userID]} else {}
      ensures users == old(users)
      ensures userID in users ==> users[userID].State == state
      ensures forall k :: k in users && k != userID ==> users[k].State == old(users[k].State)
    {
      if userID in users {
        var user := users[userID];
        user.SetState(state);
      }
    }
  }
}
