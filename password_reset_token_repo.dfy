/** Lookup by token hash and bulk deletion of a user's reset tokens. */
module PasswordResetTokenRepo {
  import opened Models
  import opened BaseRepo
  import opened Database

  function GetByTokenHash(tokens: seq<PasswordResetToken>, tokenHash: string): (r: Option<PasswordResetToken>)
    ensures r.None? <==> forall i :: 0 <= i < |tokens| ==> tokens[i].data.tokenHash != tokenHash
    ensures r.Some? ==> r.value in tokens && r.value.data.tokenHash == tokenHash
  {
    GetByField(tokens, TokenHashOf, tokenHash)
  }

  /** Under the unique index, the token found is the only one with that hash. */
  lemma {:induction false} AtMostOneTokenPerHash(tokens: seq<PasswordResetToken>, tokenHash: string, t: PasswordResetToken)
    requires UniqueTokenHashes(tokens)
    requires t in tokens && t.data.tokenHash == tokenHash
    ensures GetByTokenHash(tokens, tokenHash) == Some(t)
  {
    var p := FieldIs(TokenHashOf, tokenHash);
    forall i, j | 0 <= i < |tokens| && 0 <= j < |tokens| && p(tokens[i]) && p(tokens[j])
      ensures tokens[i] == tokens[j]
    {
      FieldIsAt(TokenHashOf, tokenHash, tokens[i]);
      FieldIsAt(TokenHashOf, tokenHash, tokens[j]);
      assert !(i < j) && !(j < i);
    }
    FieldIsAt(TokenHashOf, tokenHash, t);
    FirstOfUnique(tokens, p, t);
  }

  /** `delete(PasswordResetToken).where(user_id == userId)`. */
  method DeleteAllForUser(db: Db, userId: Id)
    requires db.Valid()
    modifies db.resetTokens
    ensures db.Valid() && db.resetTokens.nextId == old(db.resetTokens.nextId)
    ensures db.resetTokens.rows == Without(old(db.resetTokens.rows), FieldIs(OwnerOf, userId))
    ensures forall i :: 0 <= i < |db.resetTokens.rows| ==> db.resetTokens.rows[i].data.userId != userId
    ensures forall i :: 0 <= i < |old(db.resetTokens.rows)| && old(db.resetTokens.rows)[i].data.userId != userId ==>
              old(db.resetTokens.rows)[i] in db.resetTokens.rows
  {
    TokensAfterRemoval(db.resetTokens.rows, db.users.rows, FieldIs(OwnerOf, userId));
    db.resetTokens.DeleteWhere(FieldIs(OwnerOf, userId));
    forall t | t in db.resetTokens.rows ensures t.data.userId != userId {
      FieldIsAt(OwnerOf, userId, t);
    }
    forall t | t in old(db.resetTokens.rows) && t.data.userId != userId ensures t in db.resetTokens.rows {
      FieldIsAt(OwnerOf, userId, t);
    }
  }

  /** A second bulk delete for the same user removes nothing more. */
  lemma DeleteAllForUserIdempotent(tokens: seq<PasswordResetToken>, userId: Id)
    ensures Without(Without(tokens, FieldIs(OwnerOf, userId)), FieldIs(OwnerOf, userId))
         == Without(tokens, FieldIs(OwnerOf, userId))
  {
    WithoutIdempotent(tokens, FieldIs(OwnerOf, userId));
  }
}
