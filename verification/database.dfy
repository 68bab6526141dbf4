/** The role store of the moderation bot (database.py, class Database).
    The two SQLite tables `approved_users` and `sudo_users` are maps from a
    user id to the row's (username, granted-by) pair; the row timestamp is
    not modelled. A write that hits a storage fault (`fault`) returns false
    and changes nothing, as the `except Exception: return False` blocks do.
    The configured owner id is fixed when the store is created; every result
    below holds whatever that id is. */
module RoleStore {

  /** One table row: the stored username and who granted the role. */
  datatype Grant = Grant(username: string, grantedBy: int)

  class Database {
    /** OWNER_ID from the configuration. */
    const ownerId: int
    /** The `approved_users` table. */
    var approvedUsers: map<int, Grant>
    /** The `sudo_users` table. */
    var sudoUsers: map<int, Grant>

    /** Opens the store on the tables already persisted (CREATE TABLE IF NOT
        EXISTS keeps earlier rows). */
    constructor (ownerId: int, approvedUsers: map<int, Grant>, sudoUsers: map<int, Grant>)
      ensures this.ownerId == ownerId
      ensures this.approvedUsers == approvedUsers && this.sudoUsers == sudoUsers
    {
      this.ownerId := ownerId;
      this.approvedUsers := approvedUsers;
      this.sudoUsers := sudoUsers;
    }

    /** INSERT OR REPLACE into `approved_users`. */
    method AddApprovedUser(userId: int, username: string, approvedBy: int, fault: bool) returns (ok: bool)
      modifies this
      ensures ok == !fault
      ensures approvedUsers == if ok then old(approvedUsers)[userId := Grant(username, approvedBy)] else old(approvedUsers)
      ensures sudoUsers == old(sudoUsers)
    {
      if fault {
        return false;
      }
      approvedUsers := approvedUsers[userId := Grant(username, approvedBy)];
      return true;
    }

    /** DELETE from `approved_users`; succeeds whether or not the row exists. */
    method RemoveApprovedUser(userId: int, fault: bool) returns (ok: bool)
      modifies this
      ensures ok == !fault
      ensures approvedUsers == if ok then old(approvedUsers) - {userId} else old(approvedUsers)
      ensures sudoUsers == old(sudoUsers)
    {
      if fault {
        return false;
      }
      approvedUsers := approvedUsers - {userId};
      return true;
    }

    /** The owner is always approved; anyone else exactly when a row exists.
        The sudo table is not consulted. */
    function IsUserApproved(userId: int): (r: bool)
      reads this
      ensures userId == ownerId ==> r
      ensures userId != ownerId ==> (r <==> userId in approvedUsers)
    {
      userId == ownerId || userId in approvedUsers
    }

    /** INSERT OR REPLACE into `sudo_users`. */
    method AddSudoUser(userId: int, username: string, addedBy: int, fault: bool) returns (ok: bool)
      modifies this
      ensures ok == !fault
      ensures sudoUsers == if ok then old(sudoUsers)[userId := Grant(username, addedBy)] else old(sudoUsers)
      ensures approvedUsers == old(approvedUsers)
    {
      if fault {
        return false;
      }
      sudoUsers := sudoUsers[userId := Grant(username, addedBy)];
      return true;
    }

    /** DELETE from `sudo_users`, refused for the owner before the table is
        touched. */
    method RemoveSudoUser(userId: int, fault: bool) returns (ok: bool)
      modifies this
      ensures ok == (userId != ownerId && !fault)
      ensures sudoUsers == if ok then old(sudoUsers) - {userId} else old(sudoUsers)
      ensures approvedUsers == old(approvedUsers)
    {
      if userId == ownerId {
        return false;
      }
      if fault {
        return false;
      }
      sudoUsers := sudoUsers - {userId};
      return true;
    }

    /** The owner is always sudo; anyone else exactly when a row exists. */
    function IsSudoUser(userId: int): (r: bool)
      reads this
      ensures userId == ownerId ==> r
      ensures userId != ownerId ==> (r <==> userId in sudoUsers)
    {
      userId == ownerId || userId in sudoUsers
    }
  }

  // ---------------------------------------------------------------------
  // Properties of the store
  // ---------------------------------------------------------------------

  /** Whatever the tables hold, the owner is reported approved and sudo. */
  lemma OwnerAlwaysPrivileged(db: Database)
    ensures db.IsUserApproved(db.ownerId) && db.IsSudoUser(db.ownerId)
  {
  }

  /** Approval does not depend on the sudo table: two stores with the same
      owner and the same approved rows agree on every id, however their sudo
      rows differ. */
  lemma ApprovalIgnoresSudo(a: Database, b: Database, userId: int)
    requires a.ownerId == b.ownerId && a.approvedUsers == b.approvedUsers
    ensures a.IsUserApproved(userId) == b.IsUserApproved(userId)
  {
  }

  /** A sudo row does not make its user approved. */
  lemma SudoDoesNotImplyApproval(db: Database, userId: int)
    requires userId != db.ownerId && userId in db.sudoUsers && userId !in db.approvedUsers
    ensures db.IsSudoUser(userId) && !db.IsUserApproved(userId)
  {
  }

  /** After a successful approval the id is approved and its row is exactly
      the new one, whatever was there before; no other row and no sudo row
      changes. */
  method ApproveThenQuery(db: Database, userId: int, username: string, approvedBy: int)
    modifies db
    ensures db.IsUserApproved(userId)
    ensures userId in db.approvedUsers && db.approvedUsers[userId] == Grant(username, approvedBy)
    ensures forall other :: other != userId ==>
      (other in db.approvedUsers <==> other in old(db.approvedUsers)) &&
      (other in db.approvedUsers ==> db.approvedUsers[other] == old(db.approvedUsers)[other])
    ensures db.sudoUsers == old(db.sudoUsers)
  {
    var ok := db.AddApprovedUser(userId, username, approvedBy, false);
  }

  /** Approving twice with the same arguments leaves the state of approving once. */
  method ApproveTwiceIsApproveOnce(db: Database, userId: int, username: string, approvedBy: int)
    modifies db
    ensures db.approvedUsers == old(db.approvedUsers)[userId := Grant(username, approvedBy)]
    ensures db.sudoUsers == old(db.sudoUsers)
  {
    var ok := db.AddApprovedUser(userId, username, approvedBy, false);
    ok := db.AddApprovedUser(userId, username, approvedBy, false);
  }

  /** Adding a sudo user twice with the same arguments leaves the state of adding once. */
  method AddSudoTwiceIsAddSudoOnce(db: Database, userId: int, username: string, addedBy: int)
    modifies db
    ensures db.sudoUsers == old(db.sudoUsers)[userId := Grant(username, addedBy)]
    ensures db.approvedUsers == old(db.approvedUsers)
  {
    var ok := db.AddSudoUser(userId, username, addedBy, false);
    ok := db.AddSudoUser(userId, username, addedBy, false);
  }

  /** Disapproving reports success even when there was no row, and leaves
      the id unapproved unless it is the owner's. */
  method DisapproveThenQuery(db: Database, userId: int)
    modifies db
    ensures db.IsUserApproved(userId) <==> userId == db.ownerId
    ensures db.sudoUsers == old(db.sudoUsers)
  {
    var ok := db.RemoveApprovedUser(userId, false);
    assert ok;
  }

  /** Removing the owner from sudo fails and changes neither table, whether
      or not storage would have failed. */
  method RemoveOwnerFromSudo(db: Database, fault: bool) returns (ok: bool)
    modifies db
    ensures !ok
    ensures db.IsSudoUser(db.ownerId)
    ensures db.approvedUsers == old(db.approvedUsers) && db.sudoUsers == old(db.sudoUsers)
  {
    ok := db.RemoveSudoUser(db.ownerId, fault);
  }

  /** For an id with no row, approving and then disapproving restores the
      approved table. */
  method ApproveThenDisapproveRestores(db: Database, userId: int, username: string, approvedBy: int)
    requires userId !in db.approvedUsers
    modifies db
    ensures db.approvedUsers == old(db.approvedUsers) && db.sudoUsers == old(db.sudoUsers)
  {
    var ok := db.AddApprovedUser(userId, username, approvedBy, false);
    ok := db.RemoveApprovedUser(userId, false);
  }

  /** For a non-owner id with no row, adding and then removing sudo restores
      the sudo table. */
  method AddThenRemoveSudoRestores(db: Database, userId: int, username: string, addedBy: int)
    requires userId != db.ownerId && userId !in db.sudoUsers
    modifies db
    ensures db.approvedUsers == old(db.approvedUsers) && db.sudoUsers == old(db.sudoUsers)
  {
    var ok := db.AddSudoUser(userId, username, addedBy, false);
    ok := db.RemoveSudoUser(userId, false);
    assert ok;
  }
}
