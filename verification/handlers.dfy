/** The decision logic of the bot's command and message handlers
    (handlers.py). A handler runs against the role store and returns the
    platform calls it makes, in order, as an effect log: a reply of some
    kind, or the deletion of the incoming message. Reply texts are reduced
    to their kind; a success reply keeps the user it names. */
module Handlers {
  import opened Utils
  import opened RoleStore

  datatype StatusLabel = OwnerLabel | SudoLabel | ApprovedLabel | NotApprovedLabel

  datatype ReplyKind =
    | NoPermission                      // caller is not sudo (approve, disapprove)
    | OwnerOnly                         // caller is not the owner (addsudo, removesudo)
    | MissingArgument                   // the command came without an argument
    | Done(subject: string)             // "User <subject> has been ..."
    | Failed                            // the store reported failure
    | Status(labels: seq<StatusLabel>)  // the /status report
    | EditedNotAllowed
    | MediaNeedsApproval
    | CopyrightNotice

  datatype Effect = Reply(kind: ReplyKind) | Delete

  // ---------------------------------------------------------------------
  // What a command argument designates
  // ---------------------------------------------------------------------

  /** The row approve and addsudo write for argument `arg`: a non-zero id
      with its printed form as username, or the sentinel key 0 with an
      `@handle`. None when the argument is silently ignored. */
  datatype Target = Target(key: int, username: string)

  function GrantTarget(arg: string): (r: Option<Target>)
    ensures r.None? <==> (IsDecimal(arg) && DecimalValue(arg) == 0) || (!IsDecimal(arg) && !StartsWithAt(arg))
    ensures r.Some? && r.value.key == 0 ==> StartsWithAt(arg) && r.value.username == arg
    ensures r.Some? && r.value.key != 0 ==>
      r.value.key > 0 && IsDecimal(arg) && DecimalValue(arg) == r.value.key &&
      IsDecimal(r.value.username) && DecimalValue(r.value.username) == r.value.key
    ensures r.Some? && r.value.key != 0 ==> r.value.username == NatToString(r.value.key)
  {
    if IsDecimal(arg) then
      var n := DecimalValue(arg);
      NatToStringRoundTrip(n);
      if n == 0 then None else Some(Target(n, NatToString(n)))
    else if StartsWithAt(arg) then
      assert !IsDigit(arg[0]);
      Some(Target(0, arg))
    else None
  }

  /** The id disapprove and removesudo delete for argument `arg`: only a
      non-zero numeric argument designates one. */
  function RevokeTarget(arg: string): (r: Option<nat>)
    ensures r.Some? <==> IsDecimal(arg) && DecimalValue(arg) != 0
    ensures r.Some? ==> r.value > 0 && r.value == DecimalValue(arg)
    ensures StartsWithAt(arg) ==> r.None?
  {
    if IsDecimal(arg) && DecimalValue(arg) != 0 then Some(DecimalValue(arg)) else None
  }

  /** A printed non-zero id designates that id for every command. */
  lemma NumeralTargets(n: nat)
    requires n != 0
    ensures GrantTarget(NatToString(n)) == Some(Target(n, NatToString(n)))
    ensures RevokeTarget(NatToString(n)) == Some(n)
  {
    NatToStringRoundTrip(n);
  }

  /** An `@handle` is granted under the sentinel key 0 and never revoked. */
  lemma HandleTargets(h: string)
    requires StartsWithAt(h)
    ensures GrantTarget(h) == Some(Target(0, h))
    ensures RevokeTarget(h) == None
  {
    assert !IsDigit(h[0]);
  }

  /** "0" is a numeral whose value is falsy: every command ignores it. */
  lemma ZeroIsIgnored()
    ensures GrantTarget("0") == None && RevokeTarget("0") == None
  {
  }

  /** Leading zeros are dropped from the stored username: "007" stores
      key 7 with username "7". */
  lemma LeadingZerosDropped()
    ensures GrantTarget("007") == Some(Target(7, "7"))
  {
    assert DecimalValue("007") == 7 by {
      assert "007"[..2] == "00" && "00"[..1] == "0" && "0"[..0] == "";
    }
    assert NatToString(7) == "7";
  }

  // ---------------------------------------------------------------------
  // Role management commands
  // ---------------------------------------------------------------------

  /** /approve: sudo only; grants approval to the argument's target. */
  method ApproveCommand(db: Database, caller: int, args: seq<string>, fault: bool) returns (effects: seq<Effect>)
    modifies db
    ensures db.sudoUsers == old(db.sudoUsers)
    ensures !old(db.IsSudoUser(caller)) ==>
      effects == [Reply(NoPermission)] && db.approvedUsers == old(db.approvedUsers)
    ensures old(db.IsSudoUser(caller)) && args == [] ==>
      effects == [Reply(MissingArgument)] && db.approvedUsers == old(db.approvedUsers)
    ensures old(db.IsSudoUser(caller)) && args != [] && GrantTarget(args[0]).None? ==>
      effects == [] && db.approvedUsers == old(db.approvedUsers)
    ensures old(db.IsSudoUser(caller)) && args != [] && GrantTarget(args[0]).Some? && fault ==>
      effects == [Reply(Failed)] && db.approvedUsers == old(db.approvedUsers)
    ensures old(db.IsSudoUser(caller)) && args != [] && GrantTarget(args[0]).Some? && !fault ==>
      var t := GrantTarget(args[0]).value;
      effects == [Reply(Done(t.username))] &&
      db.approvedUsers == old(db.approvedUsers)[t.key := Grant(t.username, caller)]
  {
    if !db.IsSudoUser(caller) {
      return [Reply(NoPermission)];
    }
    if |args| == 0 {
      return [Reply(MissingArgument)];
    }
    var info := ExtractUserInfo(args[0]);
    if info.userId.Some? && info.userId.value != 0 {
      var userId := info.userId.value;
      // `username or str(user_id)`: a numeric argument never yields a username
      var name := NatToString(userId);
      var ok := db.AddApprovedUser(userId, name, caller, fault);
      effects := if ok then [Reply(Done(NatToString(userId)))] else [Reply(Failed)];
    } else if info.username.Some? && |info.username.value| > 0 {
      var ok := db.AddApprovedUser(0, info.username.value, caller, fault);
      effects := if ok then [Reply(Done(info.username.value))] else [Reply(Failed)];
    } else {
      effects := [];
    }
  }

  /** /disapprove: sudo only; removes the approval of a numeric target. */
  method DisapproveCommand(db: Database, caller: int, args: seq<string>, fault: bool) returns (effects: seq<Effect>)
    modifies db
    ensures db.sudoUsers == old(db.sudoUsers)
    ensures !old(db.IsSudoUser(caller)) ==>
      effects == [Reply(NoPermission)] && db.approvedUsers == old(db.approvedUsers)
    ensures old(db.IsSudoUser(caller)) && args == [] ==>
      effects == [Reply(MissingArgument)] && db.approvedUsers == old(db.approvedUsers)
    ensures old(db.IsSudoUser(caller)) && args != [] && RevokeTarget(args[0]).None? ==>
      effects == [] && db.approvedUsers == old(db.approvedUsers)
    ensures old(db.IsSudoUser(caller)) && args != [] && RevokeTarget(args[0]).Some? && fault ==>
      effects == [Reply(Failed)] && db.approvedUsers == old(db.approvedUsers)
    ensures old(db.IsSudoUser(caller)) && args != [] && RevokeTarget(args[0]).Some? && !fault ==>
      var userId := RevokeTarget(args[0]).value;
      effects == [Reply(Done(NatToString(userId)))] &&
      db.approvedUsers == old(db.approvedUsers) - {userId}
  {
    if !db.IsSudoUser(caller) {
      return [Reply(NoPermission)];
    }
    if |args| == 0 {
      return [Reply(MissingArgument)];
    }
    var info := ExtractUserInfo(args[0]);
    if info.userId.Some? && info.userId.value != 0 {
      var userId := info.userId.value;
      var ok := db.RemoveApprovedUser(userId, fault);
      effects := if ok then [Reply(Done(NatToString(userId)))] else [Reply(Failed)];
    } else {
      effects := [];
    }
  }

  /** /addsudo: owner only; makes the argument's target a sudo user. */
  method AddSudoCommand(db: Database, caller: int, args: seq<string>, fault: bool) returns (effects: seq<Effect>)
    modifies db
    ensures db.approvedUsers == old(db.approvedUsers)
    ensures caller != db.ownerId ==>
      effects == [Reply(OwnerOnly)] && db.sudoUsers == old(db.sudoUsers)
    ensures caller == db.ownerId && args == [] ==>
      effects == [Reply(MissingArgument)] && db.sudoUsers == old(db.sudoUsers)
    ensures caller == db.ownerId && args != [] && GrantTarget(args[0]).None? ==>
      effects == [] && db.sudoUsers == old(db.sudoUsers)
    ensures caller == db.ownerId && args != [] && GrantTarget(args[0]).Some? && fault ==>
      effects == [Reply(Failed)] && db.sudoUsers == old(db.sudoUsers)
    ensures caller == db.ownerId && args != [] && GrantTarget(args[0]).Some? && !fault ==>
      var t := GrantTarget(args[0]).value;
      effects == [Reply(Done(t.username))] &&
      db.sudoUsers == old(db.sudoUsers)[t.key := Grant(t.username, caller)]
  {
    if caller != db.ownerId {
      return [Reply(OwnerOnly)];
    }
    if |args| == 0 {
      return [Reply(MissingArgument)];
    }
    var info := ExtractUserInfo(args[0]);
    if info.userId.Some? && info.userId.value != 0 {
      var userId := info.userId.value;
      // `username or str(user_id)`: a numeric argument never yields a username
      var name := NatToString(userId);
      var ok := db.AddSudoUser(userId, name, caller, fault);
      effects := if ok then [Reply(Done(NatToString(userId)))] else [Reply(Failed)];
    } else if info.username.Some? && |info.username.value| > 0 {
      var ok := db.AddSudoUser(0, info.username.value, caller, fault);
      effects := if ok then [Reply(Done(info.username.value))] else [Reply(Failed)];
    } else {
      effects := [];
    }
  }

  /** /removesudo: owner only; removes a numeric target from sudo. The store
      refuses to remove the owner, which the caller sees as a failure. */
  method RemoveSudoCommand(db: Database, caller: int, args: seq<string>, fault: bool) returns (effects: seq<Effect>)
    modifies db
    ensures db.approvedUsers == old(db.approvedUsers)
    ensures caller != db.ownerId ==>
      effects == [Reply(OwnerOnly)] && db.sudoUsers == old(db.sudoUsers)
    ensures caller == db.ownerId && args == [] ==>
      effects == [Reply(MissingArgument)] && db.sudoUsers == old(db.sudoUsers)
    ensures caller == db.ownerId && args != [] && RevokeTarget(args[0]).None? ==>
      effects == [] && db.sudoUsers == old(db.sudoUsers)
    ensures caller == db.ownerId && args != [] && RevokeTarget(args[0]).Some? &&
            (fault || RevokeTarget(args[0]).value == db.ownerId) ==>
      effects == [Reply(Failed)] && db.sudoUsers == old(db.sudoUsers)
    ensures caller == db.ownerId && args != [] && RevokeTarget(args[0]).Some? &&
            !fault && RevokeTarget(args[0]).value != db.ownerId ==>
      var userId := RevokeTarget(args[0]).value;
      effects == [Reply(Done(NatToString(userId)))] &&
      db.sudoUsers == old(db.sudoUsers) - {userId}
    ensures db.IsSudoUser(db.ownerId)
  {
    if caller != db.ownerId {
      return [Reply(OwnerOnly)];
    }
    if |args| == 0 {
      return [Reply(MissingArgument)];
    }
    var info := ExtractUserInfo(args[0]);
    if info.userId.Some? && info.userId.value != 0 {
      var userId := info.userId.value;
      var ok := db.RemoveSudoUser(userId, fault);
      effects := if ok then [Reply(Done(NatToString(userId)))] else [Reply(Failed)];
    } else {
      effects := [];
    }
  }

  // ---------------------------------------------------------------------
  // /status
  // ---------------------------------------------------------------------

  function LabelRank(l: StatusLabel): nat {
    match l
    case OwnerLabel => 0
    case SudoLabel => 1
    case ApprovedLabel => 2
    case NotApprovedLabel => 3
  }

  /** The labels of the status report: owner, sudo and approved in that
      order, each when it applies, and "not approved" exactly when none does. */
  function StatusLabels(isOwner: bool, isSudo: bool, isApproved: bool): (r: seq<StatusLabel>)
    ensures OwnerLabel in r <==> isOwner
    ensures SudoLabel in r <==> isSudo
    ensures ApprovedLabel in r <==> isApproved
    ensures NotApprovedLabel in r <==> !(isOwner || isSudo || isApproved)
    ensures forall i, j :: 0 <= i < j < |r| ==> LabelRank(r[i]) < LabelRank(r[j])
    ensures 1 <= |r| <= 3
  {
    (if isOwner then [OwnerLabel] else []) +
    (if isSudo then [SudoLabel] else []) +
    (if isApproved then [ApprovedLabel] else []) +
    (if !AnyTrue([isOwner, isSudo, isApproved]) then [NotApprovedLabel] else [])
  }

  /** The owner always gets exactly the three role labels. */
  lemma OwnerStatusLabels()
    ensures StatusLabels(true, true, true) == [OwnerLabel, SudoLabel, ApprovedLabel]
  {
  }

  /** Someone with no role gets only "not approved". */
  lemma NoRoleStatusLabels()
    ensures StatusLabels(false, false, false) == [NotApprovedLabel]
  {
  }

  /** /status: one reply listing the caller's roles; the store is only read. */
  method StatusCommand(db: Database, caller: int) returns (effects: seq<Effect>)
    ensures effects == [Reply(Status(StatusLabels(caller == db.ownerId, db.IsSudoUser(caller), db.IsUserApproved(caller))))]
    ensures caller == db.ownerId ==> effects == [Reply(Status([OwnerLabel, SudoLabel, ApprovedLabel]))]
    ensures caller != db.ownerId && caller !in db.sudoUsers && caller !in db.approvedUsers ==>
      effects == [Reply(Status([NotApprovedLabel]))]
  {
    var isApproved := db.IsUserApproved(caller);
    var isSudo := db.IsSudoUser(caller);
    var labels := StatusLabels(caller == db.ownerId, isSudo, isApproved);
    effects := [Reply(Status(labels))];
    OwnerStatusLabels();
    NoRoleStatusLabels();
  }

  // ---------------------------------------------------------------------
  // Moderation of ordinary messages
  // ---------------------------------------------------------------------

  /** The moderation decision for a message whose sender is or is not
      approved: the reply that accompanies deleting it, or None when the
      message stays. The checks are tried in order and the first that fires
      decides. */
  function Verdict(m: Message, senderApproved: bool): (r: Option<ReplyKind>)
    ensures r == Some(EditedNotAllowed) <==> IsEditedMessage(m)
    ensures r == Some(MediaNeedsApproval) <==>
      !IsEditedMessage(m) && IsMediaMessage(m) && !senderApproved
    ensures r == Some(CopyrightNotice) <==>
      !IsEditedMessage(m) && !(IsMediaMessage(m) && !senderApproved) &&
      m.text.Some? && CheckCopyrightViolation(m.text.value)
    ensures r.None? <==>
      !IsEditedMessage(m) && !(IsMediaMessage(m) && !senderApproved) &&
      !(m.text.Some? && CheckCopyrightViolation(m.text.value))
  {
    if IsEditedMessage(m) then Some(EditedNotAllowed)
    else if IsMediaMessage(m) && !senderApproved then Some(MediaNeedsApproval)
    else if m.text.Some? && CheckCopyrightViolation(m.text.value) then Some(CopyrightNotice)
    else None
  }

  /** Handles a non-command message: deletes it and replies once when a
      check fires, otherwise does nothing. The store is only read. */
  method HandleMessage(db: Database, sender: int, m: Message) returns (effects: seq<Effect>)
    ensures var v := Verdict(m, db.IsUserApproved(sender));
      effects == if v.Some? then [Delete, Reply(v.value)] else []
    ensures |effects| <= 2 && (effects != [] ==> effects[0] == Delete)
  {
    if IsEditedMessage(m) {
      return [Delete, Reply(EditedNotAllowed)];
    }
    if IsMediaMessage(m) {
      if !db.IsUserApproved(sender) {
        return [Delete, Reply(MediaNeedsApproval)];
      }
    }
    // `update.message.text and ...`: an absent or empty text is skipped
    if m.text.Some? && |m.text.value| > 0 && CheckCopyrightViolation(m.text.value) {
      return [Delete, Reply(CopyrightNotice)];
    }
    return [];
  }

  // ---------------------------------------------------------------------
  // Properties of the handlers
  // ---------------------------------------------------------------------

  /** An approved sender's media is left alone when it carries no flagged text. */
  lemma ApprovedMediaKept(m: Message)
    requires !IsEditedMessage(m) && IsMediaMessage(m)
    requires m.text.None? || !CheckCopyrightViolation(m.text.value)
    ensures Verdict(m, true) == None
  {
  }

  /** A sudo user who has no approval row (and is not the owner) has media
      deleted: only the approval table is consulted. */
  lemma SudoWithoutApprovalLosesMedia(db: Database, sender: int, m: Message)
    requires sender != db.ownerId && sender in db.sudoUsers && sender !in db.approvedUsers
    requires !IsEditedMessage(m) && IsMediaMessage(m)
    ensures db.IsSudoUser(sender)
    ensures Verdict(m, db.IsUserApproved(sender)) == Some(MediaNeedsApproval)
  {
  }

  /** The sample notice is removed whoever sends it, when it is a plain text
      message. */
  lemma SampleNoticeRemoved(senderApproved: bool)
    ensures Verdict(Message(false, false, false, false, false, None,
                            Some("\U{A9} 2024 Some Corp, all rights reserved")), senderApproved)
            == Some(CopyrightNotice)
  {
    SampleNoticeFlagged();
  }

  /** Text around a flagged passage does not save a plain text message. */
  lemma FlaggedPassageRemoved(m: Message, senderApproved: bool, p: string, t: string, s: string)
    requires !IsEditedMessage(m) && !IsMediaMessage(m)
    requires m.text == Some(p + t + s) && CheckCopyrightViolation(t)
    ensures Verdict(m, senderApproved) == Some(CopyrightNotice)
  {
    CopyrightMonotone(p, t, s);
  }

  /** A non-sudo caller of /approve gets the permission reply and the store
      keeps every approval. */
  method NonSudoCannotApprove(db: Database, caller: int, target: nat)
    requires !db.IsSudoUser(caller)
    modifies db
    ensures db.IsUserApproved(target) == old(db.IsUserApproved(target))
    ensures db.approvedUsers == old(db.approvedUsers) && db.sudoUsers == old(db.sudoUsers)
  {
    var effects := ApproveCommand(db, caller, [NatToString(target)], false);
    assert effects == [Reply(NoPermission)];
  }

  /** The owner's /addsudo @alice writes the sentinel row 0 with the handle,
      `@` included, and approves or promotes nobody else. */
  method AddSudoByHandle(db: Database)
    modifies db
    ensures db.IsSudoUser(0)
    ensures 0 in db.sudoUsers && db.sudoUsers[0] == Grant("@alice", db.ownerId)
    ensures forall id :: id != 0 ==> db.IsSudoUser(id) == old(db.IsSudoUser(id))
    ensures db.approvedUsers == old(db.approvedUsers)
  {
    HandleTargets("@alice");
    var effects := AddSudoCommand(db, db.ownerId, ["@alice"], false);
    assert effects == [Reply(Done("@alice"))];
  }

  /** The owner's /removesudo of the owner's own id fails and the owner stays
      sudo. */
  method OwnerCannotBeDemoted(db: Database)
    requires db.ownerId > 0
    modifies db
    ensures db.IsSudoUser(db.ownerId)
    ensures db.sudoUsers == old(db.sudoUsers) && db.approvedUsers == old(db.approvedUsers)
  {
    NumeralTargets(db.ownerId);
    var effects := RemoveSudoCommand(db, db.ownerId, [NatToString(db.ownerId)], false);
    assert effects == [Reply(Failed)];
  }
}
