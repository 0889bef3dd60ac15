/** The refresh-token store, a sequence of records in insertion order, and its
    two controller operations. */
module RefreshTokenController {
  import opened Wrappers
  import opened Users
  import opened TokenTypes

  /** Where a `createRefreshToken` call fails, if it does: before anything is
      deleted (including at connect), or after the delete and at the save. */
  datatype WriteFault = NoWriteFault | FailsBeforeDelete | FailsAfterDelete

  datatype WriteResult = WriteResult(store: seq<TokenRecord>, saved: bool)

  /** The records owned by `uid`, in store order. */
  function RecordsOf(s: seq<TokenRecord>, uid: UserId): seq<TokenRecord> {
    if |s| == 0 then []
    else RecordsOf(s[..|s| - 1], uid) + (if s[|s| - 1].userId == uid then [s[|s| - 1]] else [])
  }

  /** `deleteMany({userId: uid})`. */
  function WithoutUser(s: seq<TokenRecord>, uid: UserId): seq<TokenRecord> {
    if |s| == 0 then []
    else WithoutUser(s[..|s| - 1], uid) + (if s[|s| - 1].userId == uid then [] else [s[|s| - 1]])
  }

  lemma {:induction false} RecordsOfAppend(s: seq<TokenRecord>, t: seq<TokenRecord>, uid: UserId)
    ensures RecordsOf(s + t, uid) == RecordsOf(s, uid) + RecordsOf(t, uid)
    decreases |t|
  {
    if |t| == 0 {
      assert s + t == s;
    } else {
      assert (s + t)[..|s + t| - 1] == s + t[..|t| - 1];
      RecordsOfAppend(s, t[..|t| - 1], uid);
    }
  }

  /** Deleting by owner empties that owner's records and keeps everyone else's. */
  lemma {:induction false} RecordsOfWithoutUser(s: seq<TokenRecord>, uid: UserId, other: UserId)
    ensures RecordsOf(WithoutUser(s, uid), other) == if other == uid then [] else RecordsOf(s, other)
    decreases |s|
  {
    if |s| > 0 {
      var init, last := s[..|s| - 1], s[|s| - 1];
      RecordsOfWithoutUser(init, uid, other);
      RecordsOfAppend(WithoutUser(init, uid), if last.userId == uid then [] else [last], other);
    }
  }

  /** At most one refresh token per user. */
  ghost predicate OnePerUser(s: seq<TokenRecord>) {
    forall uid :: |RecordsOf(s, uid)| <= 1
  }

  /** `createRefreshToken`: delete every record of `d.userId`, then insert `d`;
      any failure is caught and reported as `false`. */
  function CreateRefreshToken(s: seq<TokenRecord>, d: TokenRecord, fault: WriteFault): (r: WriteResult)
    ensures r.saved <==> fault == NoWriteFault
    ensures r.saved ==> RecordsOf(r.store, d.userId) == [d]
    ensures fault == FailsBeforeDelete ==> r.store == s
    ensures fault == FailsAfterDelete ==> RecordsOf(r.store, d.userId) == []
    ensures forall uid | uid != d.userId :: RecordsOf(r.store, uid) == RecordsOf(s, uid)
    ensures OnePerUser(s) ==> OnePerUser(r.store)
  {
    RecordsOfWithoutUserAll(s, d.userId);
    match fault
    case FailsBeforeDelete => WriteResult(s, false)
    case FailsAfterDelete => WriteResult(WithoutUser(s, d.userId), false)
    case NoWriteFault =>
      var s' := WithoutUser(s, d.userId) + [d];
      RecordsOfAfterInsert(s, d);
      WriteResult(s', true)
  }

  lemma RecordsOfWithoutUserAll(s: seq<TokenRecord>, uid: UserId)
    ensures forall other :: RecordsOf(WithoutUser(s, uid), other) == if other == uid then [] else RecordsOf(s, other)
  {
    forall other ensures RecordsOf(WithoutUser(s, uid), other) == if other == uid then [] else RecordsOf(s, other) {
      RecordsOfWithoutUser(s, uid, other);
    }
  }

  lemma RecordsOfAfterInsert(s: seq<TokenRecord>, d: TokenRecord)
    ensures forall other ::
              RecordsOf(WithoutUser(s, d.userId) + [d], other) == if other == d.userId then [d] else RecordsOf(s, other)
  {
    forall other ensures RecordsOf(WithoutUser(s, d.userId) + [d], other)
      == if other == d.userId then [d] else RecordsOf(s, other)
    {
      RecordsOfAppend(WithoutUser(s, d.userId), [d], other);
      RecordsOfWithoutUser(s, d.userId, other);
      assert RecordsOf([d], other) == RecordsOf([], other) + (if d.userId == other then [d] else []);
    }
  }

  /** Position of the first record holding `t`, or `|s|`. */
  function FirstWithToken(s: seq<TokenRecord>, t: Token): (i: nat)
    ensures i <= |s|
    ensures i < |s| ==> s[i].token == t
    ensures forall j | 0 <= j < i :: s[j].token != t
  {
    if |s| == 0 then 0
    else if s[0].token == t then 0
    else 1 + FirstWithToken(s[1..], t)
  }

  /** `findRefreshToken`: an exact-match lookup by token; `null` when absent and
      when the lookup fails. The store is not touched. */
  function FindRefreshToken(s: seq<TokenRecord>, t: Token, fails: bool): (r: Option<TokenRecord>)
    ensures r.Some? ==> !fails && r.value in s && r.value.token == t
    ensures r.None? ==> fails || forall x | x in s :: x.token != t
  {
    if fails then None
    else
      var i := FirstWithToken(s, t);
      if i < |s| then Some(s[i]) else None
  }

  lemma {:induction false} InRecordsOf(s: seq<TokenRecord>, x: TokenRecord)
    ensures x in s ==> x in RecordsOf(s, x.userId)
    decreases |s|
  {
    if |s| > 0 && x in s {
      if x != s[|s| - 1] {
        assert x in s[..|s| - 1];
        InRecordsOf(s[..|s| - 1], x);
      }
    }
  }

  /** Once a user's token has been replaced by a different one, looking the old
      one up finds nothing, provided no other user holds that same token. */
  lemma ReplacedTokenIsGone(s: seq<TokenRecord>, d1: TokenRecord, d2: TokenRecord, fault: WriteFault)
    requires d1.userId == d2.userId && d1.token != d2.token
    requires forall x | x in s :: x.token == d1.token ==> x.userId == d1.userId
    ensures var s1 := CreateRefreshToken(s, d1, fault).store;
            var s2 := CreateRefreshToken(s1, d2, NoWriteFault).store;
            FindRefreshToken(s2, d1.token, false) == None
  {
    var s1 := CreateRefreshToken(s, d1, fault).store;
    var s2 := CreateRefreshToken(s1, d2, NoWriteFault).store;
    forall x | x in s2 ensures x.token != d1.token {
      InRecordsOf(s2, x);
      if x.userId != d1.userId {
        InRecordsOf(s1, x);
        if fault != FailsBeforeDelete {
          assert x.userId != d1.userId;
        }
        assert x in RecordsOf(s, x.userId);
        RecordsOfSubset(s, x.userId);
      }
    }
  }

  lemma {:induction false} RecordsOfSubset(s: seq<TokenRecord>, uid: UserId)
    ensures forall x | x in RecordsOf(s, uid) :: x in s && x.userId == uid
    decreases |s|
  {
    if |s| > 0 {
      RecordsOfSubset(s[..|s| - 1], uid);
    }
  }

  lemma {:induction false} WithoutUserSubset(s: seq<TokenRecord>, uid: UserId)
    ensures forall x | x in WithoutUser(s, uid) :: x in s && x.userId != uid
    decreases |s|
  {
    if |s| > 0 {
      WithoutUserSubset(s[..|s| - 1], uid);
    }
  }

  /** `deleteMany({userId: uid})` removes exactly the records of `uid` and keeps
      every other record. */
  lemma {:induction false} WithoutUserContents(s: seq<TokenRecord>, uid: UserId)
    ensures forall x :: x in WithoutUser(s, uid) <==> x in s && x.userId != uid
    decreases |s|
  {
    if |s| > 0 {
      WithoutUserContents(s[..|s| - 1], uid);
      assert s == s[..|s| - 1] + [s[|s| - 1]];
    }
  }

  /** Every stored token names its record's owner in its claims, as the
      generator arranges. */
  ghost predicate TokensOwned(s: seq<TokenRecord>) {
    forall x | x in s :: x.token.claims.id == x.userId
  }

  lemma CreateKeepsTokensOwned(s: seq<TokenRecord>, d: TokenRecord, fault: WriteFault)
    ensures TokensOwned(s) && d.token.claims.id == d.userId ==>
      TokensOwned(CreateRefreshToken(s, d, fault).store)
  {
    WithoutUserSubset(s, d.userId);
  }

  /** In an owned store where the user's only record is `d`, looking up `d`'s
      token finds `d`. */
  lemma FindOwnRecord(s: seq<TokenRecord>, d: TokenRecord)
    requires TokensOwned(s) && d.token.claims.id == d.userId
    requires RecordsOf(s, d.userId) == [d]
    ensures FindRefreshToken(s, d.token, false) == Some(d)
  {
    RecordsOfSubset(s, d.userId);
    var r := FindRefreshToken(s, d.token, false);
    assert d in s;
    InRecordsOf(s, r.value);
  }

  /** In an owned store where the user's only record is `d`, no other token
      naming that user is found. */
  lemma OnlyCurrentTokenFound(s: seq<TokenRecord>, d: TokenRecord, t: Token, fails: bool)
    requires TokensOwned(s)
    requires RecordsOf(s, d.userId) == [d]
    requires t.claims.id == d.userId && t != d.token
    ensures FindRefreshToken(s, t, fails) == None
  {
    var r := FindRefreshToken(s, t, fails);
    if r.Some? {
      InRecordsOf(s, r.value);
    }
  }
}
