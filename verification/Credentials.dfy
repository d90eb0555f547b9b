/**
  The credential row of one user (models/auths.py): second-factor data, session stamp and password
  change only by conditional updates that name the state they were computed from.

  A method call is one committed transaction, or one that found nothing to update; callers hold
  copies of the row that may be arbitrarily old, so any interleaving of readers and writers is a
  sequence of calls.
 */
module Credentials {
  import opened Prelude

  type Token = string

  /** `factors` stands for the secret, recovery hashes, limits and flags that no rule here inspects. */
  datatype MfaData = MfaData(
    revision: Token,
    factors: string,
    loginChallenge: Option<string>,
    manageChallenge: Option<string>,
    resetTicket: Option<string>)

  datatype Auth = Auth(password: string, active: bool, mfa: Option<MfaData>, sessionStamp: Option<Token>)

  /** NULL when there is no second-factor data. */
  function Revision(auth: Auth): Option<Token> {
    if auth.mfa.Some? then Some(auth.mfa.value.revision) else None
  }

  function ClearChallenges(mfa: MfaData): MfaData {
    mfa.(loginChallenge := None, manageChallenge := None, resetTicket := None)
  }

  /** `clear_mfa_challenges`. */
  function ClearMfaChallenges(mfa: Option<MfaData>, revision: Token): Option<MfaData> {
    if mfa.None? then None else Some(ClearChallenges(mfa.value).(revision := revision))
  }

  // ---------- Tokens over the history of a row ----------

  predicate Uses(auth: Auth, token: Token) {
    Revision(auth) == Some(token) || auth.sessionStamp == Some(token)
  }

  /** Every commit changes the revision or the stamp, never to a pair seen before. */
  ghost predicate DistinctTokens(history: seq<Auth>) {
    forall i, j :: 0 <= i < j < |history| ==>
      (Revision(history[i]), history[i].sessionStamp) != (Revision(history[j]), history[j].sessionStamp)
  }

  /** A revision belongs to one state of the second factor, a stamp to one password. */
  ghost predicate TokensIdentify(history: seq<Auth>) {
    forall i, j :: 0 <= i < |history| && 0 <= j < |history| ==>
      (Revision(history[i]) == Revision(history[j]) ==> history[i].mfa == history[j].mfa) &&
      (history[i].sessionStamp == history[j].sessionStamp ==> history[i].password == history[j].password)
  }

  ghost predicate AllUsed(history: seq<Auth>, used: set<Token>) {
    forall i, token :: 0 <= i < |history| && Uses(history[i], token) ==> token in used
  }

  ghost predicate GoodHistory(history: seq<Auth>, used: set<Token>) {
    history != [] && DistinctTokens(history) && TokensIdentify(history) && AllUsed(history, used)
  }

  /** What a commit may do: install a fresh revision, or a fresh stamp over no second factor at all. */
  ghost predicate FreshStep(before: Auth, after: Auth, used: set<Token>) {
    (after.mfa.Some? ==> after.mfa.value.revision !in used) &&
    (after.mfa.None? ==> after.sessionStamp != before.sessionStamp) &&
    (after.sessionStamp != before.sessionStamp ==> after.sessionStamp.Some? && after.sessionStamp.value !in used) &&
    (after.sessionStamp == before.sessionStamp ==> after.password == before.password) &&
    (before.mfa.Some? ==> after.mfa.Some?)
  }

  lemma CommitKeepsHistory(history: seq<Auth>, used: set<Token>, after: Auth, issued: set<Token>)
    requires GoodHistory(history, used) && FreshStep(history[|history| - 1], after, used)
    requires forall token :: Uses(after, token) ==> token in used + issued
    ensures GoodHistory(history + [after], used + issued)
  {
    var history' := history + [after];
    var before := history[|history| - 1];
    forall i | 0 <= i < |history|
      ensures (Revision(history[i]), history[i].sessionStamp) != (Revision(after), after.sessionStamp)
      ensures Revision(history[i]) == Revision(after) ==> history[i].mfa == after.mfa
      ensures history[i].sessionStamp == after.sessionStamp ==> history[i].password == after.password
    {
      assert forall token :: Uses(history[i], token) ==> token in used;
      if after.mfa.Some? {
        assert Revision(history[i]).Some? ==> Uses(history[i], Revision(history[i]).value);
      }
      if after.sessionStamp != before.sessionStamp {
        assert history[i].sessionStamp.Some? ==> Uses(history[i], history[i].sessionStamp.value);
      }
    }
    assert history'[|history|] == after;
  }

  /** An old copy with the tokens of the latest state is the latest state. */
  lemma TokensFindLatest(history: seq<Auth>, used: set<Token>, auth: Auth)
    requires GoodHistory(history, used) && auth in history
    requires var latest := history[|history| - 1];
             Revision(auth) == Revision(latest) && auth.sessionStamp == latest.sessionStamp
    ensures auth == history[|history| - 1]
  {
    var i :| 0 <= i < |history| && history[i] == auth;
    assert i == |history| - 1;
  }

  // ---------- The row ----------

  datatype RevokeOutcome = Missing | Revoked | Changed

  class AuthRow {
    var row: Option<Auth>            // None once the user is deleted
    ghost var history: seq<Auth>     // every committed state
    ghost var used: set<Token>       // every token ever issued

    ghost predicate Valid()
      reads this
    {
      GoodHistory(history, used) && (row.Some? ==> row.value == history[|history| - 1])
    }

    constructor (password: string, sessionStamp: Token)
      ensures Valid() && row == Some(Auth(password, true, None, Some(sessionStamp))) && history == [row.value]
      ensures used == {sessionStamp}
    {
      row := Some(Auth(password, true, None, Some(sessionStamp)));
      history, used := [Auth(password, true, None, Some(sessionStamp))], {sessionStamp};
    }

    /** The WHERE clause that a copy of the row must still satisfy. */
    predicate Matches(auth: Auth)
      reads this
    {
      row.Some? && row.value.active && row.value.password == auth.password &&
      row.value.sessionStamp == auth.sessionStamp && Revision(row.value) == Revision(auth)
    }

    /** Said without the WHERE clause: what one copy must share with another to be the state it replaces. */
    ghost predicate Same(now: Auth, copy: Auth) {
      now.active && now.password == copy.password && now.sessionStamp == copy.sessionStamp &&
      (now.mfa.None? <==> copy.mfa.None?) && (now.mfa.Some? ==> now.mfa.value.revision == copy.mfa.value.revision)
    }

    ghost method Record(revision: Token, stamp: Token)
      requires row.Some? && GoodHistory(history, used) && FreshStep(history[|history| - 1], row.value, used)
      requires forall token :: Uses(row.value, token) ==> token in used + {revision, stamp}
      modifies this`history, this`used
      ensures Valid() && history == old(history) + [row.value] && used == old(used) + {revision, stamp}
    {
      CommitKeepsHistory(history, used, row.value, {revision, stamp});
      history, used := history + [row.value], used + {revision, stamp};
    }

    /** Compare-and-swap of the complete credential state. */
    method UpdateMfaById(auth: Auth, mfa: MfaData, revoke: bool, revision: Token, stamp: Token)
      returns (r: Option<Auth>)
      requires Valid() && revision !in used && stamp !in used && revision != stamp
      modifies this
      ensures Valid()
      ensures r.None? ==> row == old(row) && history == old(history) && used == old(used)
      ensures r.Some? ==> used == old(used) + {revision, stamp}
      // it commits exactly when the row is active and has the copy's password, stamp and revision
      ensures r.Some? <==> old(row).Some? && Same(old(row).value, auth)
      ensures r.Some? ==>
                r.value == auth.(mfa := Some(mfa.(revision := revision)),
                                 sessionStamp := if revoke then Some(stamp) else auth.sessionStamp) &&
                row == Some(old(row).value.(mfa := r.value.mfa, sessionStamp := r.value.sessionStamp)) &&
                history == old(history) + [row.value]
      // No lost update: a copy read at any time commits only if it is the state it replaces,
      ensures auth in old(history) && r.Some? ==> auth == old(row).value && row == r
      // and a second update built from the same copy, or any older one, can never commit.
      ensures forall a :: a in old(history) && r.Some? ==> !Same(row.value, a)
      // Revoking installs a stamp that no committed state ever had.
      ensures r.Some? && revoke ==> forall a :: a in old(history) ==> a.sessionStamp != row.value.sessionStamp
    {
      if !Matches(auth) {
        return None;
      }
      var mfa' := mfa.(revision := revision);
      var stamp' := if revoke then Some(stamp) else auth.sessionStamp;
      if auth in history {
        TokensFindLatest(history, used, auth);
      }
      ghost var before := history;
      UsedTokens(history, used, revision, stamp);
      assert stamp'.Some? && !revoke ==> Uses(row.value, stamp'.value);
      row := Some(row.value.(mfa := Some(mfa'), sessionStamp := stamp'));
      Record(revision, stamp);
      r := Some(auth.(mfa := Some(mfa'), sessionStamp := stamp'));
    }

    /** Ends all sessions; `seen` is the copy that the transaction read, perhaps before others committed. */
    method RevokeSessions(seen: Option<Auth>, revision: Token, stamp: Token) returns (r: RevokeOutcome)
      requires Valid() && revision !in used && stamp !in used && revision != stamp
      requires seen.Some? ==> seen.value in history
      modifies this
      ensures Valid()
      ensures r.Missing? <==> seen.None?
      ensures r.Revoked? <==> seen.Some? && old(row) == seen
      ensures !r.Revoked? ==> row == old(row) && history == old(history) && used == old(used)
      ensures r.Revoked? ==> used == old(used) + {revision, stamp}
      ensures r.Revoked? ==>
                row.Some? && row == Some(seen.value.(mfa := row.value.mfa, sessionStamp := Some(stamp))) &&
                history == old(history) + [row.value]
      // no challenge or ticket survives, the factors do
      ensures r.Revoked? && seen.value.mfa.None? ==> row.value.mfa.None?
      ensures r.Revoked? && seen.value.mfa.Some? ==>
                row.value.mfa == Some(MfaData(revision, seen.value.mfa.value.factors, None, None, None))
      ensures r.Revoked? ==>
                forall a :: a in old(history) ==> a.sessionStamp != row.value.sessionStamp && !Same(row.value, a)
    {
      if seen.None? {
        return Missing;
      }
      if row.None? || row.value.sessionStamp != seen.value.sessionStamp || Revision(row.value) != Revision(seen.value) {
        return Changed;
      }
      TokensFindLatest(history, used, seen.value);
      UsedTokens(history, used, revision, stamp);
      row := Some(row.value.(mfa := ClearMfaChallenges(seen.value.mfa, revision), sessionStamp := Some(stamp)));
      Record(revision, stamp);
      r := Revoked;
    }

    /** A new password revokes every session and challenge in the same transaction. */
    method UpdatePassword(auth: Auth, newPassword: string, blank: MfaData, revision: Token, stamp: Token)
      returns (ok: bool)
      requires Valid() && revision !in used && stamp !in used && revision != stamp
      modifies this
      ensures Valid()
      ensures ok <==> old(row).Some? && Same(old(row).value, auth)
      ensures !ok ==> row == old(row) && history == old(history) && used == old(used)
      ensures ok ==> used == old(used) + {revision, stamp}
      ensures ok ==>
                row == Some(old(row).value.(
                  password := newPassword, sessionStamp := Some(stamp),
                  mfa := Some(MfaData(revision, if auth.mfa.Some? then auth.mfa.value.factors else blank.factors,
                                      None, None, None)))) &&
                history == old(history) + [row.value]
      ensures ok && auth in old(history) ==> auth == old(row).value
      ensures ok ==> forall a :: a in old(history) ==> a.sessionStamp != row.value.sessionStamp && !Same(row.value, a)
    {
      if !Matches(auth) {
        return false;
      }
      if auth in history {
        TokensFindLatest(history, used, auth);
      }
      UsedTokens(history, used, revision, stamp);
      var state := ClearMfaChallenges(Some(if auth.mfa.Some? then auth.mfa.value else blank), revision);
      row := Some(row.value.(password := newPassword, sessionStamp := Some(stamp), mfa := state));
      Record(revision, stamp);
      ok := true;
    }

    method Delete()
      requires Valid()
      modifies this`row
      ensures Valid() && row == None
    {
      row := None;
    }
  }

  lemma UsedTokens(history: seq<Auth>, used: set<Token>, revision: Token, stamp: Token)
    requires AllUsed(history, used) && revision !in used && stamp !in used
    ensures forall a :: a in history ==> Revision(a) != Some(revision) && a.sessionStamp != Some(stamp)
  {
    forall a | a in history
      ensures Revision(a) != Some(revision) && a.sessionStamp != Some(stamp)
    {
      var i :| 0 <= i < |history| && history[i] == a;
      assert Uses(history[i], revision) ==> revision in used;
      assert Uses(history[i], stamp) ==> stamp in used;
    }
  }

  /** Two updates built from one copy: the first commits, the second finds the row changed. */
  method TwoUpdates(password: string, factors: MfaData, others: MfaData)
    returns (row: AuthRow, first: Option<Auth>, second: Option<Auth>)
    ensures fresh(row) && row.Valid() && first.Some? && second.None? && row.row == first
  {
    row := new AuthRow(password, "stamp 0");
    var copy := row.row.value;
    assert row.history[0] == copy;
    first := row.UpdateMfaById(copy, factors, true, "revision 1", "stamp 1");
    second := row.UpdateMfaById(copy, others, false, "revision 2", "stamp 2");
  }
}
