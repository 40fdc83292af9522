/** The database the repositories work on: one table per model, and the
    constraints the schema declares across them. */
module Database {
  import opened Models
  import opened BaseRepo

  /** The foreign key `session.user_id -> user.id`. */
  ghost predicate SessionsOwned(sessions: seq<Session>, users: seq<User>)
  {
    forall i :: 0 <= i < |sessions| ==> HasId(users, sessions[i].data.userId)
  }

  /** The unique index on `user.email`. */
  ghost predicate UniqueEmails(users: seq<User>)
  {
    forall i, j :: 0 <= i < j < |users| ==> users[i].data.email != users[j].data.email
  }

  /** The unique index on `password_reset_token.token_hash`. */
  ghost predicate UniqueTokenHashes(tokens: seq<PasswordResetToken>)
  {
    forall i, j :: 0 <= i < j < |tokens| ==> tokens[i].data.tokenHash != tokens[j].data.tokenHash
  }

  /** The foreign key `password_reset_token.user_id -> user.id`. */
  ghost predicate TokensOwned(tokens: seq<PasswordResetToken>, users: seq<User>)
  {
    forall i :: 0 <= i < |tokens| ==> HasId(users, tokens[i].data.userId)
  }

  class Db {
    const users: Table<UserData>
    const sessions: Table<SessionData>
    const resetTokens: Table<ResetTokenData>

    ghost predicate Valid()
      reads users, sessions, resetTokens
    {
      && users.Valid() && sessions.Valid() && resetTokens.Valid()
      && UniqueEmails(users.rows)
      && SessionsOwned(sessions.rows, users.rows)
      && UniqueTokenHashes(resetTokens.rows)
      && TokensOwned(resetTokens.rows, users.rows)
    }

    constructor ()
      ensures Valid() && fresh(users) && fresh(sessions) && fresh(resetTokens)
      ensures users.rows == [] && sessions.rows == [] && resetTokens.rows == []
    {
      users := new Table();
      sessions := new Table();
      resetTokens := new Table();
    }
  }

  /** Removing sessions keeps every remaining one owned. */
  lemma OwnedAfterRemoval(sessions: seq<Session>, users: seq<User>, p: Session -> bool)
    requires SessionsOwned(sessions, users)
    ensures SessionsOwned(Without(sessions, p), users)
  {
    var r := Without(sessions, p);
    forall i | 0 <= i < |r| ensures HasId(users, r[i].data.userId) {
      var k :| 0 <= k < |sessions| && sessions[k] == r[i];
    }
  }

  /** A session for an existing user keeps the sessions owned. */
  lemma OwnedAfterInsert(sessions: seq<Session>, users: seq<User>, s: Session)
    requires SessionsOwned(sessions, users) && HasId(users, s.data.userId)
    ensures SessionsOwned(sessions + [s], users)
  {
    var r := sessions + [s];
    forall i | 0 <= i < |r| ensures HasId(users, r[i].data.userId) {
      if i < |sessions| { assert r[i] == sessions[i]; }
    }
  }

  /** Adding a user keeps every session owned. */
  lemma OwnedAfterNewUser(sessions: seq<Session>, users: seq<User>, u: User)
    requires SessionsOwned(sessions, users)
    ensures SessionsOwned(sessions, users + [u])
  {
    forall i | 0 <= i < |sessions| ensures HasId(users + [u], sessions[i].data.userId) {
      var k :| 0 <= k < |users| && users[k].id == sessions[i].data.userId;
      assert (users + [u])[k] == users[k];
    }
  }

  /** Adding a user keeps every reset token owned. */
  lemma TokensOwnedAfterNewUser(tokens: seq<PasswordResetToken>, users: seq<User>, u: User)
    requires TokensOwned(tokens, users)
    ensures TokensOwned(tokens, users + [u])
  {
    forall i | 0 <= i < |tokens| ensures HasId(users + [u], tokens[i].data.userId) {
      var k :| 0 <= k < |users| && users[k].id == tokens[i].data.userId;
      assert (users + [u])[k] == users[k];
    }
  }

  /** Deleting reset tokens keeps the remaining ones owned and their hashes
      unique, since the remaining rows keep their order. */
  lemma {:induction false} TokensAfterRemoval(tokens: seq<PasswordResetToken>, users: seq<User>,
                                              p: PasswordResetToken -> bool)
    requires UniqueTokenHashes(tokens) && TokensOwned(tokens, users)
    ensures UniqueTokenHashes(Without(tokens, p)) && TokensOwned(Without(tokens, p), users)
  {
    if tokens != [] {
      var rest := tokens[1..];
      assert UniqueTokenHashes(rest) by {
        forall i, j | 0 <= i < j < |rest| ensures rest[i].data.tokenHash != rest[j].data.tokenHash {
          assert rest[i] == tokens[i + 1] && rest[j] == tokens[j + 1];
        }
      }
      assert TokensOwned(rest, users) by {
        forall i | 0 <= i < |rest| ensures HasId(users, rest[i].data.userId) {
          assert rest[i] == tokens[i + 1];
        }
      }
      TokensAfterRemoval(rest, users, p);
      var tail := Without(rest, p);
      forall k | 0 <= k < |tail| ensures tail[k].data.tokenHash != tokens[0].data.tokenHash {
        var m :| 0 <= m < |rest| && rest[m] == tail[k];
        assert tokens[m + 1] == tail[k];
      }
      assert tokens[0] == tokens[0];
      var head := if p(tokens[0]) then [] else [tokens[0]];
      assert Without(tokens, p) == head + tail;
      assert HasId(users, tokens[0].data.userId);
    }
  }
}
