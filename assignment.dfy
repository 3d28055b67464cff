/**
 * Granting the default permissions on a repository: to one user, or to every
 * user of the snapshot except those the configuration excludes. The grant
 * itself is a hook that does nothing; what is modelled is which grants are
 * asked for and what the command replies.
 */
module Assignment {
  import opened Wrappers
  import opened Text
  import opened Directory

  /** One invocation of the permission-setting hook. */
  datatype Grant = Grant(repositoryId: int, userId: int)

  /** What a command hands back to the chat: nothing (Python's `None`), a
      text, or an exception that escapes the command. */
  datatype Reply = NoReply | Message(body: string) | Crash(reason: string)

  /** Python 2's message for `str + None`. */
  const ConcatenationError: string := "cannot concatenate 'str' and 'NoneType' objects"

  /** The grants one single-user request asks for: one, exactly when the
      repository and the user both resolve and the login, as given, is not
      in the exclusion list. */
  function SingleUserGrants(users: seq<User>, repositories: seq<Repository>, exclude: seq<string>,
                            name: string, login: string): seq<Grant>
  {
    match (RepositoryIdByName(repositories, name), UserIdByLogin(users, login))
    case (Some(rid), Some(uid)) => if login in exclude then [] else [Grant(rid, uid)]
    case _ => []
  }

  /** The reply to a single-user request; `None` when the user is excluded. */
  function SingleUserReply(users: seq<User>, repositories: seq<Repository>, exclude: seq<string>,
                           name: string, login: string): Option<string>
  {
    var rid, uid := RepositoryIdByName(repositories, name), UserIdByLogin(users, login);
    if rid.Some? && uid.Some? && login !in exclude then
      Some("Set permissions for user: " + login + "(" + IntToString(uid.value) + ")\n")
    else if rid.None? then Some("Repository '" + name + "' not found\n")
    else if uid.None? then Some("User '" + login + "' not found\n")
    else None
  }

  /** The hook is asked for exactly when both names resolve and the login is
      not excluded, and then it receives the resolved ids and the reply
      confirms the grant. */
  lemma GrantOnlyWhenResolvedAndNotExcluded(users: seq<User>, repositories: seq<Repository>,
                                            exclude: seq<string>, name: string, login: string)
    ensures |SingleUserGrants(users, repositories, exclude, name, login)| <= 1
    ensures SingleUserGrants(users, repositories, exclude, name, login) != [] <==>
              RepositoryIdByName(repositories, name).Some? && UserIdByLogin(users, login).Some? && login !in exclude
    ensures SingleUserGrants(users, repositories, exclude, name, login) != [] ==>
              SingleUserGrants(users, repositories, exclude, name, login)
                == [Grant(RepositoryIdByName(repositories, name).value, UserIdByLogin(users, login).value)] &&
              SingleUserReply(users, repositories, exclude, name, login)
                == Some("Set permissions for user: " + login + "(" + IntToString(UserIdByLogin(users, login).value) + ")\n")
  {
  }

  /** An unknown repository is reported whatever the login, and an excluded
      user that resolves gets no reply at all. */
  lemma SingleUserFailureReplies(users: seq<User>, repositories: seq<Repository>,
                                 exclude: seq<string>, name: string, login: string)
    ensures RepositoryIdByName(repositories, name).None? ==>
              SingleUserReply(users, repositories, exclude, name, login) == Some("Repository '" + name + "' not found\n")
    ensures RepositoryIdByName(repositories, name).Some? && UserIdByLogin(users, login).None? ==>
              SingleUserReply(users, repositories, exclude, name, login) == Some("User '" + login + "' not found\n")
    ensures SingleUserReply(users, repositories, exclude, name, login).None? <==>
              RepositoryIdByName(repositories, name).Some? && UserIdByLogin(users, login).Some? && login in exclude
  {
  }

  /** Every user's own login resolves (to that user, or to an earlier user
      whose stripped login is the same). */
  lemma OwnLoginResolves(users: seq<User>, i: nat)
    requires i < |users|
    ensures UserIdByLogin(users, users[i].login).Some?
  {
    UserIdByLoginIsFirstMatch(users, users[i].login);
    assert LoginMatches(users[i], users[i].login);
  }

  /** The header of the all-users reply. */
  function SettingHeader(name: string, rid: int): string {
    "Setting permissions for repository: " + name + "(" + IntToString(rid) + ")\n"
  }

  /** What the single-user request does for one user: its reply and its grants. */
  datatype Outcome = Outcome(reply: Option<string>, grants: seq<Grant>)

  function SingleUserOutcome(users: seq<User>, repositories: seq<Repository>, exclude: seq<string>,
                             name: string, login: string): Outcome
  {
    Outcome(SingleUserReply(users, repositories, exclude, name, login),
            SingleUserGrants(users, repositories, exclude, name, login))
  }

  /** `f` applied to each user, in snapshot order. */
  function ForEachUser<T>(users: seq<User>, f: User -> T): (r: seq<T>)
    ensures |r| == |users|
  {
    if users == [] then [] else ForEachUser(users[..|users| - 1], f) + [f(users[|users| - 1])]
  }

  lemma {:induction false} ForEachUserAt<T>(users: seq<User>, f: User -> T, i: nat)
    requires i < |users|
    ensures ForEachUser(users, f)[i] == f(users[i])
  {
    var n := |users| - 1;
    if i < n {
      ForEachUserAt(users[..n], f, i);
      assert users[..n][i] == users[i];
    }
  }

  /** The single-user outcome for every user of the snapshot, in snapshot
      order, each under the user's own login. */
  function Outcomes(users: seq<User>, repositories: seq<Repository>, exclude: seq<string>, name: string): (os: seq<Outcome>)
    ensures |os| == |users|
  {
    ForEachUser(users, (u: User) => SingleUserOutcome(users, repositories, exclude, name, u.login))
  }

  /** Outcome `i` is user `i`'s single-user outcome. */
  lemma OutcomeAt(users: seq<User>, repositories: seq<Repository>, exclude: seq<string>, name: string, i: nat)
    requires i < |users|
    ensures Outcomes(users, repositories, exclude, name)[i]
         == SingleUserOutcome(users, repositories, exclude, name, users[i].login)
  {
    ForEachUserAt(users, (u: User) => SingleUserOutcome(users, repositories, exclude, name, u.login), i);
  }

  /** The state of the all-users loop, as written, after the first `n`
      outcomes: the text so far (`None` once a `None` reply has been added to
      it, which raises) and the grants asked for. */
  datatype Progress = Progress(text: Option<string>, grants: seq<Grant>)

  function AsWrittenProgress(os: seq<Outcome>, n: nat): Progress
    requires n <= |os|
  {
    if n == 0 then Progress(Some(""), [])
    else
      var p := AsWrittenProgress(os, n - 1);
      if p.text.None? then p
      else
        match os[n - 1].reply
        case None => Progress(None, p.grants)
        case Some(s) => Progress(Some(p.text.value + s), p.grants + os[n - 1].grants)
  }

  /** The all-users request as the code is written: no reply for an unknown
      repository, otherwise the header and each user's reply, raising as soon
      as one of those replies is `None`. */
  function AllUsersAsWritten(users: seq<User>, repositories: seq<Repository>, exclude: seq<string>, name: string): Reply {
    match RepositoryIdByName(repositories, name)
    case None => NoReply
    case Some(rid) =>
      var os := Outcomes(users, repositories, exclude, name);
      match AsWrittenProgress(os, |os|).text
      case None => Crash(ConcatenationError)
      case Some(t) => Message(SettingHeader(name, rid) + t)
  }

  /** The text of the all-users loop after `n` outcomes when `None` replies
      are skipped. */
  function SkippingText(os: seq<Outcome>, n: nat): string
    requires n <= |os|
  {
    if n == 0 then "" else SkippingText(os, n - 1) + os[n - 1].reply.GetOr("")
  }

  /** The grants asked for over the first `n` outcomes. */
  function AllGrants(os: seq<Outcome>, n: nat): seq<Grant>
    requires n <= |os|
  {
    if n == 0 then [] else AllGrants(os, n - 1) + os[n - 1].grants
  }

  /** The all-users request as intended: excluded users are skipped. */
  function AllUsersSkippingExcluded(users: seq<User>, repositories: seq<Repository>, exclude: seq<string>,
                                    name: string): Reply
  {
    match RepositoryIdByName(repositories, name)
    case None => NoReply
    case Some(rid) =>
      var os := Outcomes(users, repositories, exclude, name);
      Message(SettingHeader(name, rid) + SkippingText(os, |os|))
  }

  /** The grants the all-users request, as written, asks for: none for an
      unknown repository, otherwise those of the users before it raises. */
  function AsWrittenGrants(users: seq<User>, repositories: seq<Repository>, exclude: seq<string>, name: string): seq<Grant> {
    if RepositoryIdByName(repositories, name).None? then []
    else
      var os := Outcomes(users, repositories, exclude, name);
      AsWrittenProgress(os, |os|).grants
  }

  /** The grants the intended all-users request asks for. */
  function SkippingGrants(users: seq<User>, repositories: seq<Repository>, exclude: seq<string>, name: string): seq<Grant> {
    if RepositoryIdByName(repositories, name).None? then []
    else
      var os := Outcomes(users, repositories, exclude, name);
      AllGrants(os, |os|)
  }

  /** One more outcome in the as-written loop: its reply is appended and its
      grants added, or, when it has no reply, the loop raises keeping the
      grants so far. */
  lemma AsWrittenStep(os: seq<Outcome>, i: nat)
    requires i < |os| && AsWrittenProgress(os, i).text.Some?
    requires os[i].reply.None? ==> os[i].grants == []
    ensures os[i].reply.Some? ==>
              AsWrittenProgress(os, i + 1)
                == Progress(Some(AsWrittenProgress(os, i).text.value + os[i].reply.value),
                            AsWrittenProgress(os, i).grants + os[i].grants)
    ensures os[i].reply.None? ==>
              AsWrittenProgress(os, i + 1) == Progress(None, AsWrittenProgress(os, i).grants + os[i].grants)
  {
  }

  /** A single-user request without a reply asks for no grant. */
  lemma NoReplyNoGrant(users: seq<User>, repositories: seq<Repository>, exclude: seq<string>, name: string, login: string)
    ensures SingleUserReply(users, repositories, exclude, name, login).None? ==>
              SingleUserGrants(users, repositories, exclude, name, login) == []
  {
  }

  /** One more outcome in the skipping loop: its reply, if any, is appended
      and its grants added. */
  lemma SkippingStep(os: seq<Outcome>, i: nat)
    requires i < |os|
    ensures SkippingText(os, i + 1) == SkippingText(os, i) + os[i].reply.GetOr("")
    ensures AllGrants(os, i + 1) == AllGrants(os, i) + os[i].grants
  {
  }

  /** Once the as-written loop has raised, later outcomes change nothing. */
  lemma {:induction false} CrashIsFinal(os: seq<Outcome>, n: nat, m: nat)
    requires n <= m <= |os|
    requires AsWrittenProgress(os, n).text.None?
    ensures AsWrittenProgress(os, m) == AsWrittenProgress(os, n)
    decreases m - n
  {
    if n < m {
      CrashIsFinal(os, n, m - 1);
    }
  }

  /** Before the first `None` reply the as-written loop agrees with the
      skipping one; from that reply on it has raised, keeping the grants
      asked for before it. */
  lemma {:induction false} AsWrittenProgressFacts(os: seq<Outcome>, k: nat, n: nat)
    requires k <= |os| && n <= |os|
    requires forall j :: 0 <= j < k ==> os[j].reply.Some?
    requires k < |os| ==> os[k].reply.None?
    ensures n <= k ==> AsWrittenProgress(os, n) == Progress(Some(SkippingText(os, n)), AllGrants(os, n))
    ensures k < n ==> AsWrittenProgress(os, n) == Progress(None, AllGrants(os, k))
  {
    if n > 0 {
      AsWrittenProgressFacts(os, k, n - 1);
    }
  }

  /** For a repository that resolves, a user's reply is `None` exactly when
      the user's login is excluded. */
  lemma NoReplyExactlyWhenExcluded(users: seq<User>, repositories: seq<Repository>,
                                   exclude: seq<string>, name: string, j: nat)
    requires RepositoryIdByName(repositories, name).Some?
    requires j < |users|
    ensures Outcomes(users, repositories, exclude, name)[j].reply.None? <==> users[j].login in exclude
  {
    OutcomeAt(users, repositories, exclude, name, j);
    OwnLoginResolves(users, j);
  }

  /** The position of the first excluded user, given that user `i` is one. */
  function FirstExcluded(users: seq<User>, exclude: seq<string>, i: nat): (k: nat)
    requires i < |users| && users[i].login in exclude
    ensures k <= i && users[k].login in exclude
    ensures forall j :: 0 <= j < k ==> users[j].login !in exclude
  {
    if exists j :: 0 <= j < i && users[j].login in exclude then
      var j :| 0 <= j < i && users[j].login in exclude;
      FirstExcluded(users, exclude, j)
    else i
  }

  /** The defect: as soon as one user of the snapshot is excluded, the
      all-users request raises instead of replying. */
  lemma AsWrittenCrashesOnExcludedUser(users: seq<User>, repositories: seq<Repository>,
                                       exclude: seq<string>, name: string, i: nat)
    requires RepositoryIdByName(repositories, name).Some?
    requires i < |users| && users[i].login in exclude
    ensures AllUsersAsWritten(users, repositories, exclude, name) == Crash(ConcatenationError)
  {
    var os := Outcomes(users, repositories, exclude, name);
    var k := FirstExcluded(users, exclude, i);
    forall j | 0 <= j <= k ensures os[j].reply.None? <==> users[j].login in exclude {
      NoReplyExactlyWhenExcluded(users, repositories, exclude, name, j);
    }
    AsWrittenProgressFacts(os, k, |os|);
  }

  /** When nobody in the snapshot is excluded, the code as written and the
      intended behaviour agree. */
  lemma AsWrittenAgreesWithoutExclusions(users: seq<User>, repositories: seq<Repository>,
                                         exclude: seq<string>, name: string)
    requires forall j :: 0 <= j < |users| ==> users[j].login !in exclude
    ensures AllUsersAsWritten(users, repositories, exclude, name)
         == AllUsersSkippingExcluded(users, repositories, exclude, name)
  {
    if RepositoryIdByName(repositories, name).Some? {
      var os := Outcomes(users, repositories, exclude, name);
      forall j | 0 <= j < |os| ensures os[j].reply.Some? {
        NoReplyExactlyWhenExcluded(users, repositories, exclude, name, j);
      }
      AsWrittenProgressFacts(os, |os|, |os|);
    }
  }

  /** With unique logins, a user's outcome for a resolving repository: no
      reply and no grant when excluded, otherwise one grant to that user. */
  lemma OutcomeOfUser(users: seq<User>, repositories: seq<Repository>, exclude: seq<string>, name: string, j: nat)
    requires UniqueLogins(users)
    requires RepositoryIdByName(repositories, name).Some?
    requires j < |users|
    ensures Outcomes(users, repositories, exclude, name)[j].grants
         == if users[j].login in exclude then [] else [Grant(RepositoryIdByName(repositories, name).value, users[j].id)]
  {
    OutcomeAt(users, repositories, exclude, name, j);
    OwnLoginFindsUser(users, j);
  }

  /** Over outcomes that each grant to one id or to none, the grants asked
      for include id `ids[i]` exactly when outcome `i` is among the first `n`
      and grants. */
  lemma {:induction false} GrantsOfIncluded(os: seq<Outcome>, rid: int, ids: seq<int>, included: seq<bool>, n: nat, i: nat)
    requires |ids| == |os| && |included| == |os| && n <= |os| && i < |os|
    requires forall j :: 0 <= j < |os| ==> os[j].grants == if included[j] then [Grant(rid, ids[j])] else []
    requires forall j :: 0 <= j < |os| && j != i ==> ids[j] != ids[i]
    ensures Grant(rid, ids[i]) in AllGrants(os, n) <==> i < n && included[i]
  {
    if n > 0 {
      GrantsOfIncluded(os, rid, ids, included, n - 1, i);
    }
  }

  /** Which users of the snapshot are not excluded. */
  function Included(users: seq<User>, exclude: seq<string>): (r: seq<bool>)
    ensures |r| == |users|
    ensures forall j :: 0 <= j < |users| ==> r[j] == (users[j].login !in exclude)
  {
    seq(|users|, j requires 0 <= j < |users| => users[j].login !in exclude)
  }

  /** The intended all-users request grants to each user of the snapshot
      exactly when that user's login is not excluded (logins and ids unique). */
  lemma SkippingGrantsExactlyTheIncluded(users: seq<User>, repositories: seq<Repository>,
                                         exclude: seq<string>, name: string, i: nat)
    requires UniqueLogins(users) && UniqueUserIds(users)
    requires RepositoryIdByName(repositories, name).Some?
    requires i < |users|
    ensures Grant(RepositoryIdByName(repositories, name).value, users[i].id)
              in SkippingGrants(users, repositories, exclude, name)
            <==> users[i].login !in exclude
  {
    var os := Outcomes(users, repositories, exclude, name);
    var rid := RepositoryIdByName(repositories, name).value;
    var ids, included := UserIds(users), Included(users, exclude);
    forall j | 0 <= j < |os| ensures os[j].grants == if included[j] then [Grant(rid, ids[j])] else [] {
      OutcomeOfUser(users, repositories, exclude, name, j);
    }
    GrantsOfIncluded(os, rid, ids, included, |os|, i);
  }

  /** An unknown repository stops the all-users request before any user. */
  lemma UnknownRepositoryStopsAllUsers(users: seq<User>, repositories: seq<Repository>,
                                       exclude: seq<string>, name: string)
    requires RepositoryIdByName(repositories, name).None?
    ensures AllUsersAsWritten(users, repositories, exclude, name) == NoReply
    ensures AllUsersSkippingExcluded(users, repositories, exclude, name) == NoReply
    ensures AsWrittenGrants(users, repositories, exclude, name) == []
    ensures SkippingGrants(users, repositories, exclude, name) == []
  {
  }
}
