# Moderation bot core, modelled in Dafny

This project models the core of a small chat-moderation bot. The bot keeps
an allowlist of users approved to post media and a set of "sudo" delegates
who may edit that allowlist. One configured owner is always both, and cannot
be removed from sudo. The bot also deletes edited messages, media from
unapproved senders, and text that matches simple copyright patterns.

Three modules follow the three source files:

- `utils.dfy` (module `Utils`). Pure functions.
  - Command-argument parsing (`extract_user_info`). Python's `str.isdigit`,
    `int(text)` and `str(n)` are written out on ASCII digits.
  - The media and edited-message predicates.
  - The copyright check. Each of the four patterns is matched at a position
    by a hand-written greedy matcher: `©\s*\d{4}`, `all\s*rights?\s*reserved`,
    `copyright\s*\d{4}` and `proprietary\s*content`. A text is flagged when
    some position of its lower-cased form starts a match.
  - A reference definition of each pattern, in which `\s*` may stop anywhere
    in a whitespace run and `s?` may or may not be taken. It is proved equal
    to the greedy matcher at every position.
- `database.dfy` (module `RoleStore`). The class `Database`. The
  `approved_users` and `sudo_users` tables are two `map<int, Grant>` fields.
  A `Grant` is the row's (username, granted-by) pair. The owner id is a
  constant of the object, so every result holds for any configured `OWNER_ID`,
  except the scenario `OwnerCannotBeDemoted`. That scenario passes the owner's
  own id as a command argument, which only a positive id can be.
  - Each write takes a `fault` flag. On a fault the write returns false and
    changes nothing, as the source's `except Exception: return False` does.
  - Reads are functions over the two fields.
- `handlers.dfy` (module `Handlers`). The command handlers and the message
  handler, as methods over a `Database`. Each method returns its effect log:
  the replies it sends and the deletes it performs, in order.
  - Pure functions state the decisions: which row an argument designates
    (`GrantTarget`, `RevokeTarget`), the status labels, and the moderation
    verdict.

The model follows the code where the code differs from the intended design:

- The media check consults only `is_user_approved`. A sudo user without an
  approval row therefore has media deleted (`SudoWithoutApprovalLosesMedia`).
- The argument `"0"` parses to the falsy id 0, so every command ignores it
  without replying (`ZeroIsIgnored`).
- `/disapprove` and `/removesudo` ignore `@handle` arguments without replying.
- Handle-only grants are stored under the sentinel key 0. The stored username
  keeps the leading `@`.
- Targets cannot be taken from a replied-to message. No reply is deleted
  after a delay.
- Storage faults on reads are not caught by the code, so reads have no fault
  path.
- Removing the owner from sudo gives the generic failure reply. There is no
  separate "denied" reply.

## Model

| member | source | states |
|---|---|---|
| Utils.ExtractUserInfo | utils.py:4-16 | at most one of id and username is present; an id is present exactly for a non-empty all-digit argument and equals its decimal value; a username is present exactly for a non-numeric argument starting with `@` and is that argument unchanged; anything else, the empty string included, gives neither |
| Utils.ExtractUserInfoOfNumeral | utils.py:10-11 | parsing the printed form of any id `n` gives back id `n` and no username |
| Utils.ExtractUserInfoOfHandle | utils.py:13-14 | an argument starting with `@` gives itself, `@` included, as the username and no id |
| Utils.DecimalValue | utils.py:10-11 | `int(text)` of a digit string is zero, and so falsy, exactly when every digit is `0` ("0", "00", ...) |
| Utils.NatToString | handlers.py:44 | `str(n)` is a non-empty digit string with no leading zero, one character long exactly when `n < 10` |
| Utils.NatToStringRoundTrip | handlers.py:44-45 | `int(str(n)) == n` for every natural `n` |
| Utils.LeadingDigitPositive | handlers.py:43 | a numeral that does not start with `0` has a non-zero (truthy) value |
| Utils.CanonicalRoundTrip | handlers.py:42-45 | `str(int(s)) == s` holds exactly when the numeral `s` is a single digit or has no leading zero |
| Utils.AnyTrue | utils.py:20-26 | Python `any` over a list of truth values is true exactly when some element is true |
| Utils.IsMediaMessage | utils.py:18-26 | a message is media exactly when it has a sticker, animation, video, photo or document |
| Utils.EditDateDecidesEdited | utils.py:28-30 | a message is edited exactly when it carries an edit date: giving any message an edit date makes it edited, removing it makes it unedited, and attachments and text play no part |
| Utils.LowerMapsLetters | utils.py:41 | lower-casing keeps the length, turns each upper-case ASCII letter into its lower-case letter, leaves no upper-case ASCII letter, and changes no other character |
| Utils.SkipSpaces | utils.py:35-38 | the greedy `\s*` stops at the first non-whitespace position (or the end), and everything it skipped is whitespace; whitespace is every ASCII character `\s` matches in a str pattern (space, `\t` to `\r`, and `\x1c` to `\x1f`) |
| Utils.CheckCopyrightViolation | utils.py:32-45 | the empty text is never flagged; a flagged text has a position of its lower-cased form where one of the four patterns matches |
| Utils.SkipSpacesUnique | utils.py:35-38 | a whitespace run that ends at a non-whitespace character is exactly the run greedy skipping consumes |
| Utils.SymbolYearAgrees | utils.py:35 | the matcher for `©\s*\d{4}` accepts a position exactly when some split of the text fits the pattern |
| Utils.RightsReservedAgrees | utils.py:36 | the matcher for `all\s*rights?\s*reserved` accepts exactly when some choice of whitespace runs and of the optional `s` fits the pattern |
| Utils.CopyrightYearAgrees | utils.py:37 | the matcher for `copyright\s*\d{4}` agrees with the pattern at every position |
| Utils.ProprietaryContentAgrees | utils.py:38 | the matcher for `proprietary\s*content` agrees with the pattern at every position |
| Utils.MatchesAtAgrees | utils.py:34-43 | at every position, one of the four matchers fires exactly when one of the four patterns matches |
| Utils.MatchSpecShifts | utils.py:43 | a pattern match inside `t` is still a match, shifted by the prefix length, inside `p + t + s` |
| Utils.CopyrightMonotone | utils.py:42-44 | if `t` is flagged then `p + t + s` is flagged, for every prefix and suffix |
| Utils.CopyrightCaseInsensitive | utils.py:41-43 | two texts that differ only in letter case get the same verdict |
| Utils.CopyrightIgnoresUpperCase | utils.py:41-43 | upper-casing a text does not change its verdict |
| Utils.CopyrightViolationIffPattern | utils.py:32-45 | a text is flagged if and only if, at some position of its lower-cased form, one of the four patterns matches under the reference semantics of `\s*` and `s?` |
| Utils.FlaggedByMatch | utils.py:42-44 | a match of the greedy matchers at any position of the lower-cased text flags the text |
| Utils.SymbolYearOpeningFlagged | utils.py:35 | any text opening with `©`, a space and four digits is flagged |
| Utils.SampleNoticeFlagged | utils.py:35 | "© 2024 Some Corp, all rights reserved" is flagged |
| Utils.RightsNoticeFlagged | utils.py:36 | "all rights reserved" on its own is flagged |
| Utils.CapitalisedNoticeFlagged | utils.py:41-43 | "All Rights Reserved" is flagged too |
| RoleStore.Database.constructor | database.py:5-7 | the store opens on the persisted tables with the configured owner id |
| RoleStore.Database.AddApprovedUser | database.py:31-41 | without a fault it returns true and upserts the row `id -> (username, approved_by)`, replacing any earlier row; with a fault it returns false and changes nothing; the sudo table never changes |
| RoleStore.Database.RemoveApprovedUser | database.py:43-50 | without a fault it returns true, present row or not, and deletes the row; with a fault it returns false and changes nothing; the sudo table never changes |
| RoleStore.Database.IsUserApproved | database.py:52-57 | the owner is always approved; any other id is approved exactly when it has an approval row |
| RoleStore.Database.AddSudoUser | database.py:59-69 | without a fault it returns true and upserts the sudo row; with a fault it returns false and changes nothing; the approval table never changes |
| RoleStore.Database.RemoveSudoUser | database.py:71-80 | it succeeds exactly for a non-owner id without a fault, and then deletes that row; otherwise nothing changes; the approval table never changes |
| RoleStore.Database.IsSudoUser | database.py:82-87 | the owner is always sudo; any other id is sudo exactly when it has a sudo row |
| RoleStore.OwnerAlwaysPrivileged | database.py:82-84 | in every state the owner is reported both approved and sudo |
| RoleStore.ApprovalIgnoresSudo | database.py:52-57 | approval depends only on the owner id and the approval table, never on the sudo table |
| RoleStore.SudoDoesNotImplyApproval | database.py:52-57 | a non-owner with a sudo row but no approval row is sudo and not approved |
| RoleStore.ApproveThenQuery | database.py:31-39 | after a successful approval the id is approved, its row is exactly the new one, every other row is unchanged, and the sudo table is unchanged |
| RoleStore.ApproveTwiceIsApproveOnce | database.py:35 | approving twice with the same arguments leaves the same tables as approving once |
| RoleStore.AddSudoTwiceIsAddSudoOnce | database.py:63 | adding the same sudo user twice leaves the same tables as adding once |
| RoleStore.DisapproveThenQuery | database.py:43-57 | after a successful disapproval the id is approved only if it is the owner's |
| RoleStore.RemoveOwnerFromSudo | database.py:71-73 | removing the owner from sudo fails, fault or not, and leaves both tables unchanged, the owner's sudo row (present or not) included |
| RoleStore.ApproveThenDisapproveRestores | database.py:31-50 | for an id with no row, approving then disapproving restores both tables |
| RoleStore.AddThenRemoveSudoRestores | database.py:59-80 | for a non-owner id with no row, adding then removing sudo restores both tables |
| Handlers.GrantTarget | handlers.py:42-52 | approve and addsudo ignore an argument exactly when it is a zero-valued numeral or neither a numeral nor an `@handle`; a handle is stored under key 0 with the handle as username; a non-zero numeral is stored under its value, with `str` of that value (the canonical numeral, leading zeros dropped) as username |
| Handlers.RevokeTarget | handlers.py:64-69 | disapprove and removesudo act exactly on a non-zero numeral, using its value; a handle never designates anyone |
| Handlers.NumeralTargets | handlers.py:43-45 | the printed form of a non-zero id designates that id, and that printed form as username, for every command |
| Handlers.HandleTargets | handlers.py:48-50 | an `@handle` is granted under key 0 and ignored by the revoking commands |
| Handlers.ZeroIsIgnored | handlers.py:43 | the argument "0" is ignored by every command |
| Handlers.LeadingZerosDropped | handlers.py:44 | "007" is stored under key 7 with username "7" |
| Handlers.ApproveCommand | handlers.py:32-52 | a non-sudo caller gets the permission reply and nothing changes; a missing argument gets the usage reply and nothing changes; an ignored argument gives no reply and no change; otherwise the target row is upserted with the caller as granter and a success reply names it, or on a fault a failure reply is sent and nothing changes; the sudo table is never touched |
| Handlers.DisapproveCommand | handlers.py:54-69 | the same authorisation and usage checks as approve; a numeric non-zero target's approval row is deleted with a success reply naming the id; any other argument gives no reply and no change |
| Handlers.AddSudoCommand | handlers.py:71-91 | anyone but the owner, sudo users included, gets the owner-only reply and nothing changes; otherwise the same argument handling as approve, on the sudo table |
| Handlers.RemoveSudoCommand | handlers.py:93-108 | anyone but the owner gets the owner-only reply; a numeric non-zero target's sudo row is deleted, except that targeting the owner, or a fault, gives the failure reply and leaves the sudo table unchanged; the approval table is never touched |
| Handlers.StatusLabels | handlers.py:119-127 | each of owner, sudo and approved labels appears exactly when it applies, in that fixed order and at most once; "not approved" appears exactly when none applies; there are one to three labels |
| Handlers.OwnerStatusLabels | handlers.py:119-127 | the owner's report has exactly the three labels owner, sudo and approved |
| Handlers.NoRoleStatusLabels | handlers.py:126-127 | a caller with no role gets only "not approved" |
| Handlers.StatusCommand | handlers.py:110-129 | a single reply carries the labels for the caller's roles in the store; the owner always gets the three role labels; a caller with no row gets only "not approved"; the store is not changed |
| Handlers.Verdict | handlers.py:138-155 | a message gets the edit warning exactly when it is edited, and is then always removed; otherwise unapproved media is removed with the approval reply; otherwise flagged text is removed with the copyright reply; otherwise the message stays |
| Handlers.HandleMessage | handlers.py:131-155 | the effects are one delete followed by one reply exactly when the verdict removes the message, and nothing otherwise; the store is not changed |
| Handlers.ApprovedMediaKept | handlers.py:144-149 | media from an approved sender, unedited and without flagged text, is left alone |
| Handlers.SudoWithoutApprovalLosesMedia | handlers.py:146 | a sudo user without an approval row has unedited media removed with the approval reply |
| Handlers.SampleNoticeRemoved | handlers.py:151-155 | a plain text message "© 2024 Some Corp, all rights reserved" is removed with the copyright reply, whoever sends it |
| Handlers.FlaggedPassageRemoved | handlers.py:152-154 | a plain text message containing a flagged passage is removed, whatever surrounds the passage |
| Handlers.NonSudoCannotApprove | handlers.py:34-36 | a non-sudo caller's /approve of any id, 0 included, leaves that id's approval and both tables unchanged |
| Handlers.AddSudoByHandle | handlers.py:87-89 | the owner's /addsudo @alice writes the sudo row 0 -> ("@alice", owner) and makes no other id sudo |
| Handlers.OwnerCannotBeDemoted | handlers.py:105-108 | for a positive owner id (the only kind a command argument can name), the owner's /removesudo of the owner's own id changes neither table, and the owner stays sudo |

## Left out

- `start_command` and `help_command` (handlers.py:13-30) only send fixed text and register the command menu. They make no decision and are not modelled.
- bot.py is not part of this model. It holds the web routes, the platform client set-up and handler registration. It also imports `handle_edited_message`, which handlers.py does not define.
- config.py is not part of this model. `OWNER_ID` becomes the `ownerId` constant of the store. The unused `APPROVED_USERS` and `SUDO_USERS` sets and the message templates are dropped.
- The SQLite connection, table creation, commits and row timestamps are not modelled. The tables are maps, and a write is atomic.
- Read faults: `is_user_approved` and `is_sudo_user` do not catch storage exceptions, so reads have no fault path.
- The asynchronous platform calls are left out. Replies and deletes are recorded only as effects, in order. Reply texts are reduced to their kind and the user they name. Emoji and formatting are dropped.
- The `update.message is None` path is left out: every handler is given a message. In the source the four role commands would fail at their first reply on that path, while `status_command` (handlers.py:112-113) and `handle_message` (handlers.py:133-134) return without any effect.
- Every platform call is assumed to succeed, and the effect log records all of them. In the source a failing `delete()` (handlers.py:140, 147, 153) ends the handler before its reply is sent, and a failing reply after a successful write (for example handlers.py:45) leaves the row written with no reply.
- RoleStore.Database.AddApprovedUser, RoleStore.Database.AddSudoUser, RoleStore.Database.RemoveApprovedUser, RoleStore.Database.RemoveSudoUser, Handlers.ApproveCommand, Handlers.AddSudoCommand, Handlers.DisapproveCommand and Handlers.RemoveSudoCommand: ids are unbounded integers. SQLite stores signed 64-bit integers, and binding an id of 2^63 or more raises an error that the write's `except Exception` turns into `False`. So in the source a command naming such an id always takes the failure path, which the model reaches only through `fault`. The width limit is not part of the success condition.
- Utils.ExtractUserInfo: `str.isdigit` is modelled on ASCII digits only. Unicode digits such as superscripts are not covered.
- Utils.CheckCopyrightViolation: `str.lower`, `\s` and `\d` are modelled on ASCII only. `\s` covers every ASCII character Python's `\s` matches, but Unicode case folding, non-ASCII whitespace (such as `\x85` and `\xa0`) and non-ASCII digits are not covered.
- Utils.IsMediaMessage: each attachment field is a truth value (present or not). The attachment objects themselves are not modelled.
