/** The login-audit scenarios of src/test/login.rs, replayed directly against
    the audit store. The login orchestration that decides each attempt's
    success and resolves a name to a user is not part of this model, so each
    attempt is recorded with the outcome the test expects of it. */
module LoginScenario {
  import opened Common
  import opened Sessions

  const IP_ADDRESS_1: Option<string> := Some("alpha-beta.local")
  const IP_ADDRESS_2: Option<string> := Some("1.1.1.1")
  const IP_ADDRESS_3: Option<string> := None

  /** Records one attempt a tick after the previous one. */
  method Attempt(m: SessionManager, userId: Option<UserId>, usernameOrEmail: Option<string>,
                 remoteAddress: Option<string>, success: bool)
    returns (a: LoginAttempt)
    requires m.Valid()
    requires userId.Some? || usernameOrEmail.Some?
    modifies m
    ensures m.Valid()
    ensures a == LoginAttempt(a.id, userId, usernameOrEmail, remoteAddress, success, old(m.clock) + 1)
    ensures m.attempts == old(m.attempts) + [a] && m.clock == old(m.clock) + 1
  {
    m.Tick(1);
    var id := m.AddLoginAttempt(userId, usernameOrEmail, remoteAddress, success);
    a := m.attempts[|m.attempts| - 1];
  }

  /** The attempts of the by-id test: two wrong passwords, then the right one. */
  method RecordById(m: SessionManager, user: UserId) returns (a1: LoginAttempt, a2: LoginAttempt, a3: LoginAttempt)
    requires m.Valid()
    modifies m
    ensures m.Valid()
    ensures m.attempts == old(m.attempts) + [a1, a2, a3]
    ensures a1 == LoginAttempt(a1.id, Some(user), None, IP_ADDRESS_2, false, old(m.clock) + 1)
    ensures a2 == LoginAttempt(a2.id, Some(user), None, IP_ADDRESS_1, false, old(m.clock) + 2)
    ensures a3 == LoginAttempt(a3.id, Some(user), None, IP_ADDRESS_3, true, old(m.clock) + 3)
  {
    ghost var before := m.attempts;
    a1 := Attempt(m, Some(user), None, IP_ADDRESS_2, false);
    a2 := Attempt(m, Some(user), None, IP_ADDRESS_1, false);
    a3 := Attempt(m, Some(user), None, IP_ADDRESS_3, true);
    AppendThree(before, a1, a2, a3);
  }

  /** Three attempts by id for a user with no attempts after `since`. The
      query returns exactly those three, newest first, so the successful
      attempt comes first. */
  method LoginById(m: SessionManager, user: UserId, since: Time) returns (attempts: seq<LoginAttempt>)
    requires m.Valid() && m.clock >= since
    requires forall a :: a in m.attempts ==> !(a.userId == Some(user) && a.attemptedAt > since)
    modifies m
    ensures attempts == m.GetLoginAttempts(user, since)
    ensures |attempts| == 3
    ensures attempts[0].userId == Some(user) && attempts[0].usernameOrEmail == None
    ensures attempts[0].remoteAddress == IP_ADDRESS_3 && attempts[0].success
    ensures attempts[1].userId == Some(user) && attempts[1].usernameOrEmail == None
    ensures attempts[1].remoteAddress == IP_ADDRESS_1 && !attempts[1].success
    ensures attempts[2].userId == Some(user) && attempts[2].usernameOrEmail == None
    ensures attempts[2].remoteAddress == IP_ADDRESS_2 && !attempts[2].success
  {
    ghost var before := m.attempts;
    var a1, a2, a3 := RecordById(m, user);
    attempts := QueryThree(m, user, since, before, a1, a2, a3);
  }

  /** The per-user query after three attempts by `user` with rising
      timestamps, none of them older than `since`, and nothing of that user's
      after `since` before them. */
  method QueryThree(m: SessionManager, user: UserId, since: Time, ghost before: seq<LoginAttempt>,
                    a1: LoginAttempt, a2: LoginAttempt, a3: LoginAttempt)
    returns (attempts: seq<LoginAttempt>)
    requires m.attempts == before + [a1, a2, a3]
    requires forall a :: a in before ==> !(a.userId == Some(user) && a.attemptedAt > since)
    requires a1.userId == Some(user) && a2.userId == Some(user) && a3.userId == Some(user)
    requires since < a1.attemptedAt < a2.attemptedAt < a3.attemptedAt
    ensures attempts == m.GetLoginAttempts(user, since) == [a3, a2, a1]
  {
    attempts := m.GetLoginAttempts(user, since);
    ThreeNewest(before, a1, a2, a3, UserSince(user, since));
  }

  /** When nothing older is selected and three selected rows follow with
      rising timestamps, the query returns them in reverse. */
  lemma ThreeNewest(before: seq<LoginAttempt>, a1: LoginAttempt, a2: LoginAttempt, a3: LoginAttempt, c: Criteria)
    requires forall a :: a in before ==> !Selects(c, a)
    requires Selects(c, a1) && Selects(c, a2) && Selects(c, a3)
    requires a1.attemptedAt < a2.attemptedAt < a3.attemptedAt
    ensures Query(before + [a1, a2, a3], c) == [a3, a2, a1]
  {
    SelectThree(before, a1, a2, a3, c);
    NewestThree(a1, a2, a3);
  }

  lemma SelectThree(before: seq<LoginAttempt>, a1: LoginAttempt, a2: LoginAttempt, a3: LoginAttempt, c: Criteria)
    requires forall a :: a in before ==> !Selects(c, a)
    requires Selects(c, a1) && Selects(c, a2) && Selects(c, a3)
    ensures Select(before + [a1, a2, a3], c) == [a1, a2, a3]
  {
    var added := [a1, a2, a3];
    assert Select(before, c) == [] by {
      NothingSelected(before, c);
    }
    assert Select(added, c) == added by {
      assert forall i :: 0 <= i < |added| ==> Selects(c, added[i]);
      SelectEverything(added, c);
    }
    SelectAppend(before, added, c);
    assert [] + added == added;
  }

  lemma NewestThree(a1: LoginAttempt, a2: LoginAttempt, a3: LoginAttempt)
    requires a1.attemptedAt < a2.attemptedAt < a3.attemptedAt
    ensures Newest([a1, a2, a3], PAGE_LIMIT) == [a3, a2, a1]
  {
  }

  /** With equal timestamps: three selected rows recorded at one clock
      reading may come back in table order, the order the test at
      src/test/login.rs:98-115 reads. */
  lemma ThreeAtOnce(before: seq<LoginAttempt>, a1: LoginAttempt, a2: LoginAttempt, a3: LoginAttempt, c: Criteria)
    requires forall a :: a in before ==> !Selects(c, a)
    requires Selects(c, a1) && Selects(c, a2) && Selects(c, a3)
    requires a1.attemptedAt == a2.attemptedAt == a3.attemptedAt
    ensures Query(before + [a1, a2, a3], c) == [a1, a2, a3]
  {
    SelectThree(before, a1, a2, a3, c);
    SortAtOnce(a1, a2, a3);
  }

  lemma SortAtOnce(a1: LoginAttempt, a2: LoginAttempt, a3: LoginAttempt)
    requires a1.attemptedAt == a2.attemptedAt == a3.attemptedAt
    ensures Newest([a1, a2, a3], PAGE_LIMIT) == [a1, a2, a3]
  {
    assert [a2, a3][1..] == [a3];
    assert [a1, a2, a3][1..] == [a2, a3];
    assert SortNewestFirst([a3]) == [a3];
    assert SortNewestFirst([a2, a3]) == [a2, a3];
    assert Insert(a1, [a2, a3]) == [a1, a2, a3];
  }

  lemma NothingSelected(rows: seq<LoginAttempt>, c: Criteria)
    requires forall a :: a in rows ==> !Selects(c, a)
    ensures Select(rows, c) == []
  {
  }

  /** A criterion that selects every row keeps the whole table. */
  lemma {:induction false} SelectEverything(rows: seq<LoginAttempt>, c: Criteria)
    requires forall i :: 0 <= i < |rows| ==> Selects(c, rows[i])
    ensures Select(rows, c) == rows
  {
    if rows != [] {
      SelectEverything(rows[1..], c);
    }
  }

  /** The attempts of the by-name test, each a tick after the previous one. */
  method RecordByName(m: SessionManager, resolve: string -> Option<UserId>) returns (added: seq<LoginAttempt>)
    requires m.Valid()
    modifies m
    ensures m.Valid()
    ensures m.attempts == old(m.attempts) + added
    ensures |added| == 6 && forall i :: 0 <= i < |added| ==> added[i].attemptedAt == old(m.clock) + 1 + i
    ensures forall i, j :: 0 <= i < j < |added| ==> added[i].id != added[j].id
  {
    ghost var before := m.attempts;
    var a1 := Attempt(m, resolve("squirrel"), Some("squirrel"), IP_ADDRESS_3, false);
    var a2 := Attempt(m, resolve("squirrelbird"), Some("squirrelbird"), IP_ADDRESS_1, false);
    var a3 := Attempt(m, resolve("squirrelbird"), Some("squirrelbird"), IP_ADDRESS_2, true);
    var a4 := Attempt(m, resolve("jenny@gmail.com"), Some("jenny@gmail.com"), IP_ADDRESS_1, false);
    var a5 := Attempt(m, resolve("jenny@example.net"), Some("jenny@example.net"), IP_ADDRESS_3, false);
    var a6 := Attempt(m, resolve("jenny@example.net"), Some("jenny@example.net"), IP_ADDRESS_2, true);
    added := [a1, a2, a3, a4, a5, a6];
    AppendSix(before, a1, a2, a3, a4, a5, a6);
    forall i, j | 0 <= i < j < |added| ensures added[i].id != added[j].id {
      assert added[i] == m.attempts[|before| + i] && added[j] == m.attempts[|before| + j];
    }
  }

  /** Six attempts by name or email. Whatever other attempts the table
      already holds, the query for everything after `since` returns at least
      six rows. `resolve` stands for the directory lookup of each string. */
  method LoginByName(m: SessionManager, since: Time, resolve: string -> Option<UserId>)
    returns (attempts: seq<LoginAttempt>)
    requires m.Valid() && m.clock >= since
    modifies m
    ensures attempts == m.GetAllLoginAttempts(since)
    ensures |attempts| >= 6
  {
    ghost var before := m.attempts;
    var added := RecordByName(m, resolve);
    attempts := m.GetAllLoginAttempts(since);
    AllNewRowsCounted(before, added, AllSince(since));
  }

  /** Distinct appended rows (pairwise different ids), all selected, are all
      counted by the query unless the page is already full, whatever their
      timestamps. */
  lemma AllNewRowsCounted(before: seq<LoginAttempt>, added: seq<LoginAttempt>, c: Criteria)
    requires forall i :: 0 <= i < |added| ==> Selects(c, added[i])
    requires forall i, j :: 0 <= i < j < |added| ==> added[i].id != added[j].id
    requires |added| <= PAGE_LIMIT
    ensures |Query(before + added, c)| >= |added|
  {
    var rows := before + added;
    var r := Query(rows, c);
    if |r| < PAGE_LIMIT {
      forall i | 0 <= i < |added| ensures added[i] in r {
        assert added[i] == rows[|before| + i];
      }
      DistinctMembers(added, r);
    }
  }

  lemma AppendThree(s: seq<LoginAttempt>, a1: LoginAttempt, a2: LoginAttempt, a3: LoginAttempt)
    ensures s + [a1] + [a2] + [a3] == s + [a1, a2, a3]
  {
  }

  lemma AppendSix(s: seq<LoginAttempt>, a1: LoginAttempt, a2: LoginAttempt, a3: LoginAttempt,
                  a4: LoginAttempt, a5: LoginAttempt, a6: LoginAttempt)
    ensures s + [a1] + [a2] + [a3] + [a4] + [a5] + [a6] == s + [a1, a2, a3, a4, a5, a6]
  {
  }

  /** The ids that occur in `s`. */
  function Ids(s: seq<LoginAttempt>): set<LoginAttemptId> {
    set i | 0 <= i < |s| :: s[i].id
  }

  /** A sequence that contains `n` rows with pairwise different ids has at least `n` entries. */
  lemma DistinctMembers(added: seq<LoginAttempt>, s: seq<LoginAttempt>)
    requires forall i, j :: 0 <= i < j < |added| ==> added[i].id != added[j].id
    requires forall i :: 0 <= i < |added| ==> added[i] in s
    ensures |s| >= |added|
  {
    assert Ids(added) <= Ids(s) by {
      forall t | t in Ids(added) ensures t in Ids(s) {
        var i :| 0 <= i < |added| && added[i].id == t;
        var j :| 0 <= j < |s| && s[j] == added[i];
      }
    }
    DistinctIds(added);
    IdsBound(s);
    SubsetCardinality(Ids(added), Ids(s));
  }

  lemma SubsetCardinality(a: set<LoginAttemptId>, b: set<LoginAttemptId>)
    requires a <= b
    ensures |a| <= |b|
  {
    assert b == a + (b - a);
  }

  lemma {:induction false} DistinctIds(s: seq<LoginAttempt>)
    requires forall i, j :: 0 <= i < j < |s| ==> s[i].id != s[j].id
    ensures |Ids(s)| == |s|
  {
    if s != [] {
      var rest := s[..|s| - 1];
      DistinctIds(rest);
      assert Ids(s) == Ids(rest) + {s[|s| - 1].id};
      assert s[|s| - 1].id !in Ids(rest);
    }
  }

  lemma {:induction false} IdsBound(s: seq<LoginAttempt>)
    ensures |Ids(s)| <= |s|
  {
    if s != [] {
      var rest := s[..|s| - 1];
      IdsBound(rest);
      assert Ids(s) == Ids(rest) + {s[|s| - 1].id};
    }
  }
}
