/** The login-attempt audit store of src/session/manager.rs: the records it
    holds, the queries it answers, and the `SessionManager` that inserts into
    and updates the `login_attempts` table. The table lives in memory and the
    database's `now()` is an abstract clock. */
module Sessions {
  import opened Common

  /** One row of the `login_attempts` table. */
  datatype LoginAttempt = LoginAttempt(
    id: LoginAttemptId,
    userId: Option<UserId>,
    usernameOrEmail: Option<string>,
    remoteAddress: Option<string>,
    success: bool,
    attemptedAt: Time)

  /** One row of the `sessions` table. No operation of this component creates one. */
  datatype Session = Session(id: SessionId, userId: UserId, loginAttemptId: LoginAttemptId)

  /** The fixed page size of both audit queries. */
  const PAGE_LIMIT: nat := 100

  /** The WHERE clause of the two audit queries: strictly after `since`,
      and for `UserSince` also `user_id = user`. */
  datatype Criteria = AllSince(since: Time) | UserSince(user: UserId, since: Time)

  predicate Selects(c: Criteria, a: LoginAttempt) {
    a.attemptedAt > c.since && (c.UserSince? ==> a.userId == Some(c.user))
  }

  /** ORDER BY attempted_at DESC: timestamps never increase along `s`. */
  predicate NewestFirst(s: seq<LoginAttempt>) {
    forall i, j :: 0 <= i < j < |s| ==> s[i].attemptedAt >= s[j].attemptedAt
  }

  /** The rows of `rows` that `c` selects, in table order. */
  function Select(rows: seq<LoginAttempt>, c: Criteria): (r: seq<LoginAttempt>)
    ensures forall x :: x in r <==> x in rows && Selects(c, x)
  {
    if rows == [] then []
    else (if Selects(c, rows[0]) then [rows[0]] else []) + Select(rows[1..], c)
  }

  /** Filtering never repeats a row: the selection is a sub-multiset of the table. */
  lemma {:induction false} SelectDrawn(rows: seq<LoginAttempt>, c: Criteria)
    ensures multiset(Select(rows, c)) <= multiset(rows)
  {
    if rows != [] {
      assert rows == [rows[0]] + rows[1..];
      SelectDrawn(rows[1..], c);
    }
  }

  /** Selecting from a table that grew by `b` selects from `b` after what it selected before. */
  lemma {:induction false} SelectAppend(a: seq<LoginAttempt>, b: seq<LoginAttempt>, c: Criteria)
    ensures Select(a + b, c) == Select(a, c) + Select(b, c)
  {
    if a == [] {
      assert a + b == b;
    } else {
      assert (a + b)[1..] == a[1..] + b;
      SelectAppend(a[1..], b, c);
    }
  }

  /** Places `x` into a newest-first sequence, before the rows no newer than it. */
  function Insert(x: LoginAttempt, s: seq<LoginAttempt>): (r: seq<LoginAttempt>)
    requires NewestFirst(s)
    ensures NewestFirst(r)
    ensures multiset(r) == multiset(s) + multiset{x}
    ensures |r| == |s| + 1 && (r[0] == x || (s != [] && r[0] == s[0]))
  {
    if s == [] || x.attemptedAt >= s[0].attemptedAt then
      [x] + s
    else
      assert s == [s[0]] + s[1..];
      [s[0]] + Insert(x, s[1..])
  }

  /** The rows of `s`, newest first; rows with equal timestamps keep their order. */
  function SortNewestFirst(s: seq<LoginAttempt>): (r: seq<LoginAttempt>)
    ensures |r| == |s|
    ensures NewestFirst(r)
    ensures multiset(r) == multiset(s)
  {
    if s == [] then []
    else
      assert s == [s[0]] + s[1..];
      Insert(s[0], SortNewestFirst(s[1..]))
  }

  /** Sorting keeps the members of the table. */
  lemma SortKeepsMembers(rows: seq<LoginAttempt>)
    ensures forall x :: x in rows <==> x in SortNewestFirst(rows)
  {
    var s := SortNewestFirst(rows);
    forall x ensures x in rows <==> x in s {
      assert x in rows <==> x in multiset(rows);
      assert x in s <==> x in multiset(s);
    }
  }

  /** What a prefix of a newest-first sequence leaves out is no newer than the prefix. */
  lemma PrefixIsNewest(s: seq<LoginAttempt>, k: nat)
    requires NewestFirst(s) && k <= |s|
    ensures forall x :: x in s && x !in s[..k] ==>
              forall i :: 0 <= i < k ==> s[i].attemptedAt >= x.attemptedAt
  {
    forall x | x in s && x !in s[..k]
      ensures forall i :: 0 <= i < k ==> s[i].attemptedAt >= x.attemptedAt
    {
      var j :| 0 <= j < |s| && s[j] == x;
    }
  }

  /** A prefix of a newest-first sequence is newest-first. */
  lemma PrefixNewestFirst(s: seq<LoginAttempt>, k: nat)
    requires NewestFirst(s) && k <= |s|
    ensures NewestFirst(s[..k])
  {
  }

  /** A prefix takes no more copies of a row than the whole sequence holds. */
  lemma PrefixMultiset(s: seq<LoginAttempt>, k: nat)
    requires k <= |s|
    ensures multiset(s[..k]) <= multiset(s)
  {
    assert s == s[..k] + s[k..];
  }

  /** The facts behind `Newest`, about the first `Min(|rows|, limit)` sorted rows. */
  lemma NewestFacts(rows: seq<LoginAttempt>, limit: nat)
    ensures var r := SortNewestFirst(rows)[..Min(|rows|, limit)];
      && |r| == Min(|rows|, limit)
      && NewestFirst(r)
      && (forall i :: 0 <= i < |r| ==> r[i] in rows)
      && (forall x :: x in rows && x !in r ==>
            |r| == limit && forall i :: 0 <= i < |r| ==> r[i].attemptedAt >= x.attemptedAt)
  {
    var s := SortNewestFirst(rows);
    var k := Min(|rows|, limit);
    SortKeepsMembers(rows);
    var r := s[..k];
    assert forall i :: 0 <= i < |r| ==> r[i] in rows by {
      forall i | 0 <= i < |r| ensures r[i] in rows {
        assert r[i] == s[i];
      }
    }
    PrefixNewestFirst(s, k);
    PrefixIsNewest(s, k);
    assert forall x :: x in rows && x !in r ==> |r| == limit by {
      if k < limit {
        assert r == s;
      }
    }
  }

  /** ORDER BY attempted_at DESC LIMIT `limit` over `rows`. */
  function Newest(rows: seq<LoginAttempt>, limit: nat): (r: seq<LoginAttempt>)
    ensures |r| == Min(|rows|, limit)
    ensures NewestFirst(r)
    ensures forall i :: 0 <= i < |r| ==> r[i] in rows
    ensures forall x :: x in rows && x !in r ==>
              |r| == limit && forall i :: 0 <= i < |r| ==> r[i].attemptedAt >= x.attemptedAt
  {
    NewestFacts(rows, limit);
    SortNewestFirst(rows)[..Min(|rows|, limit)]
  }

  /** Sorting and truncating never repeats a row. */
  lemma NewestDrawn(rows: seq<LoginAttempt>, limit: nat)
    ensures multiset(Newest(rows, limit)) <= multiset(rows)
  {
    PrefixMultiset(SortNewestFirst(rows), Min(|rows|, limit));
  }

  /** One audit query: the rows `c` selects, newest first, at most PAGE_LIMIT of them. */
  function Query(rows: seq<LoginAttempt>, c: Criteria): (r: seq<LoginAttempt>)
    ensures |r| <= PAGE_LIMIT
    ensures NewestFirst(r)
    ensures forall i :: 0 <= i < |r| ==> r[i] in rows && Selects(c, r[i])
    ensures forall x :: x in rows && Selects(c, x) && x !in r ==>
              |r| == PAGE_LIMIT && forall i :: 0 <= i < |r| ==> r[i].attemptedAt >= x.attemptedAt
  {
    Newest(Select(rows, c), PAGE_LIMIT)
  }

  /** `r` holds each row at most as often as `rows` does. */
  predicate DrawnFrom(r: seq<LoginAttempt>, rows: seq<LoginAttempt>) {
    multiset(r) <= multiset(rows)
  }

  /** A query returns each row of the table at most as often as the table holds it. */
  lemma QueryDrawn(rows: seq<LoginAttempt>, c: Criteria)
    ensures multiset(Query(rows, c)) <= multiset(rows)
  {
    SelectDrawn(rows, c);
    NewestDrawn(Select(rows, c), PAGE_LIMIT);
  }

  /** The table after UPDATE login_attempts SET success = true WHERE login_attempt_id = `id`. */
  function WithSuccess(rows: seq<LoginAttempt>, id: LoginAttemptId): (r: seq<LoginAttempt>)
    ensures |r| == |rows|
    ensures forall i :: 0 <= i < |rows| && rows[i].id != id ==> r[i] == rows[i]
    ensures forall i :: 0 <= i < |rows| && rows[i].id == id ==> r[i] == rows[i].(success := true)
  {
    if rows == [] then []
    else
      [if rows[0].id == id then rows[0].(success := true) else rows[0]] + WithSuccess(rows[1..], id)
  }

  /** Marking an attempt successful twice is the same as marking it once. */
  lemma {:induction false} WithSuccessIdempotent(rows: seq<LoginAttempt>, id: LoginAttemptId)
    ensures WithSuccess(WithSuccess(rows, id), id) == WithSuccess(rows, id)
  {
    if rows != [] {
      WithSuccessIdempotent(rows[1..], id);
    }
  }

  /** Marking an id that no row carries leaves the table as it was. */
  lemma {:induction false} WithSuccessUnknownId(rows: seq<LoginAttempt>, id: LoginAttemptId)
    requires forall a :: a in rows ==> a.id != id
    ensures WithSuccess(rows, id) == rows
  {
    if rows != [] {
      WithSuccessUnknownId(rows[1..], id);
    }
  }

  /** The only change an update makes is false to true on `success`: never the reverse. */
  lemma SuccessOnlyRises(rows: seq<LoginAttempt>, id: LoginAttemptId, i: nat)
    requires i < |rows|
    ensures |WithSuccess(rows, id)| == |rows|
    ensures rows[i].success ==> WithSuccess(rows, id)[i] == rows[i]
    ensures WithSuccess(rows, id)[i].(success := rows[i].success) == rows[i]
  {
  }

  class SessionManager {
    /** The `login_attempts` table, in insertion order. */
    var attempts: seq<LoginAttempt>
    /** The next value of the table's id sequence. */
    var nextId: LoginAttemptId
    /** The database clock that `attempted_at` defaults to. */
    var clock: Time

    /** Ids were handed out in increasing order and are all below `nextId`;
        timestamps never decrease along the table and are not in the future;
        every row names a user id or a username-or-email string. */
    ghost predicate Valid()
      reads this
    {
      && (forall i :: 0 <= i < |attempts| ==> attempts[i].id < nextId && attempts[i].attemptedAt <= clock)
      && (forall i :: 0 <= i < |attempts| ==> attempts[i].userId.Some? || attempts[i].usernameOrEmail.Some?)
      && (forall i, j :: 0 <= i < j < |attempts| ==>
            attempts[i].id < attempts[j].id && attempts[i].attemptedAt <= attempts[j].attemptedAt)
    }

    constructor (now: Time)
      ensures Valid()
      ensures attempts == [] && nextId == 1 && clock == now
    {
      attempts := [];
      nextId := 1;
      clock := now;
    }

    /** Lets time pass on the database clock. */
    method Tick(elapsed: nat)
      requires Valid()
      modifies this
      ensures Valid()
      ensures attempts == old(attempts) && nextId == old(nextId) && clock == old(clock) + elapsed
    {
      clock := clock + elapsed;
    }

    /** Appends one audit row stamped with the current time and returns its
        fresh id. A call with neither a user id nor a username-or-email is a
        programming error (the source panics), so it is excluded. */
    method AddLoginAttempt(userId: Option<UserId>, usernameOrEmail: Option<string>,
                           remoteAddress: Option<string>, success: bool)
      returns (id: LoginAttemptId)
      requires Valid()
      requires userId.Some? || usernameOrEmail.Some?
      modifies this
      ensures Valid()
      ensures forall a :: a in old(attempts) ==> a.id != id
      ensures attempts == old(attempts) + [LoginAttempt(id, userId, usernameOrEmail, remoteAddress, success, clock)]
      ensures clock == old(clock) && nextId > old(nextId)
    {
      id := nextId;
      nextId := nextId + 1;
      attempts := attempts + [LoginAttempt(id, userId, usernameOrEmail, remoteAddress, success, clock)];
    }

    /** Sets `success` on the row with id `loginAttemptId`; an unknown id changes nothing. */
    method SetLoginSuccess(loginAttemptId: LoginAttemptId)
      requires Valid()
      modifies this
      ensures Valid()
      ensures attempts == WithSuccess(old(attempts), loginAttemptId)
      ensures nextId == old(nextId) && clock == old(clock)
    {
      attempts := WithSuccess(attempts, loginAttemptId);
    }

    /** The attempts of user `userId` strictly after `since`, newest first, at most PAGE_LIMIT. */
    function GetLoginAttempts(userId: UserId, since: Time): (r: seq<LoginAttempt>)
      reads this
      ensures |r| <= PAGE_LIMIT
      ensures NewestFirst(r)
      ensures forall i :: 0 <= i < |r| ==> r[i] in attempts && r[i].userId == Some(userId) && r[i].attemptedAt > since
      ensures forall x :: x in attempts && x.userId == Some(userId) && x.attemptedAt > since && x !in r ==>
                |r| == PAGE_LIMIT && forall i :: 0 <= i < |r| ==> r[i].attemptedAt >= x.attemptedAt
      ensures DrawnFrom(r, attempts)
    {
      QueryDrawn(attempts, UserSince(userId, since));
      Query(attempts, UserSince(userId, since))
    }

    /** Every attempt strictly after `since`, newest first, at most PAGE_LIMIT. */
    function GetAllLoginAttempts(since: Time): (r: seq<LoginAttempt>)
      reads this
      ensures |r| <= PAGE_LIMIT
      ensures NewestFirst(r)
      ensures forall i :: 0 <= i < |r| ==> r[i] in attempts && r[i].attemptedAt > since
      ensures forall x :: x in attempts && x.attemptedAt > since && x !in r ==>
                |r| == PAGE_LIMIT && forall i :: 0 <= i < |r| ==> r[i].attemptedAt >= x.attemptedAt
      ensures DrawnFrom(r, attempts)
    {
      QueryDrawn(attempts, AllSince(since));
      Query(attempts, AllSince(since))
    }
  }
}
