/**
 * The permission report: the text the get-permissions command replies with,
 * built from the permission records the hosting service returns, grouped per
 * user, and cross-referenced against the directory snapshot.
 */
module Report {
  import opened Wrappers
  import opened Text
  import opened Sequences
  import opened Directory

  /** One permission record: user `userId` may read and/or write repository `repositoryId`. */
  datatype Permission = Permission(userId: int, repositoryId: int, read: bool, write: bool)

  /** The header that opens a user's part of the report. */
  function UserHeader(u: User): string {
    "\nUser: " + u.firstName + " " + u.lastName + "\n"
  }

  /** The line that reports one record against its repository. */
  function RepositoryLine(r: Repository, p: Permission): string {
    "Repository: " + r.name + " | Permissions: Read " + BoolToString(p.read) + ", Write " + BoolToString(p.write) + "\n"
  }

  /** Both ids of a record name something in the snapshot. The command fails
      on a record that does not resolve, so it demands this of every record. */
  predicate Resolves(users: seq<User>, repositories: seq<Repository>, p: Permission) {
    UserById(users, p.userId).Some? && RepositoryById(repositories, p.repositoryId).Some?
  }

  predicate AllResolve(users: seq<User>, repositories: seq<Repository>, ps: seq<Permission>) {
    forall i :: 0 <= i < |ps| ==> Resolves(users, repositories, ps[i])
  }

  /** The header of user `uid`, looked up afresh by id. An id that resolves
      to nobody renders as nothing here; the command never reaches that case. */
  function HeaderFor(users: seq<User>, uid: int): string {
    match UserById(users, uid)
    case Some(u) => UserHeader(u)
    case None => ""
  }

  /** The repository line of record `p`, its repository looked up afresh by id. */
  function LineFor(repositories: seq<Repository>, p: Permission): string {
    match RepositoryById(repositories, p.repositoryId)
    case Some(r) => RepositoryLine(r, p)
    case None => ""
  }

  /** What one record contributes when the record before it belonged to user
      `prev` (`None` for the first record): a header when the user changes,
      then the record's repository line. */
  function Entry(users: seq<User>, repositories: seq<Repository>, prev: Option<int>, p: Permission): string {
    (if prev == Some(p.userId) then "" else HeaderFor(users, p.userId)) + LineFor(repositories, p)
  }

  /** The report of `ps` continuing after a record of user `prev`. */
  function ReportFrom(users: seq<User>, repositories: seq<Repository>, prev: Option<int>, ps: seq<Permission>): string
    decreases |ps|
  {
    if ps == [] then ""
    else Entry(users, repositories, prev, ps[0]) + ReportFrom(users, repositories, Some(ps[0].userId), ps[1..])
  }

  /** The report of a whole sequence of records. */
  function PermissionReport(users: seq<User>, repositories: seq<Repository>, ps: seq<Permission>): string {
    ReportFrom(users, repositories, None, ps)
  }

  /** The user of the last record of `ps`, or `prev` when there is none. */
  function LastUser(prev: Option<int>, ps: seq<Permission>): Option<int> {
    if ps == [] then prev else Some(ps[|ps| - 1].userId)
  }

  /** The records of all groups, groups first and records within a group next. */
  function Flatten(groups: seq<seq<Permission>>): seq<Permission> {
    if groups == [] then [] else Flatten(groups[..|groups| - 1]) + groups[|groups| - 1]
  }

  lemma {:induction false} FlattenAppend(a: seq<seq<Permission>>, b: seq<seq<Permission>>)
    ensures Flatten(a + b) == Flatten(a) + Flatten(b)
  {
    if b == [] {
      assert a + b == a;
    } else {
      var init := b[..|b| - 1];
      assert (a + b)[..|a + b| - 1] == a + init;
      FlattenAppend(a, init);
    }
  }

  /** Record `j` of group `g` sits right after the records of the groups before it. */
  lemma FlattenIndex(groups: seq<seq<Permission>>, g: nat, j: nat)
    requires g < |groups| && j < |groups[g]|
    ensures |Flatten(groups[..g])| + j < |Flatten(groups)|
    ensures Flatten(groups)[|Flatten(groups[..g])| + j] == groups[g][j]
  {
    assert groups == groups[..g + 1] + groups[g + 1..];
    FlattenAppend(groups[..g + 1], groups[g + 1..]);
    assert groups[..g + 1][..g] == groups[..g];
  }

  /** Reporting a concatenation: the second part continues from the user of
      the first part's last record. */
  lemma {:induction false} ReportAppend(users: seq<User>, repositories: seq<Repository>, prev: Option<int>,
                                        a: seq<Permission>, b: seq<Permission>)
    ensures ReportFrom(users, repositories, prev, a + b)
         == ReportFrom(users, repositories, prev, a) + ReportFrom(users, repositories, LastUser(prev, a), b)
    decreases |a|
  {
    if a == [] {
      assert a + b == b;
    } else {
      var rest, next := a[1..], Some(a[0].userId);
      SplitHead(a, b);
      var e := Entry(users, repositories, prev, a[0]);
      assert ReportFrom(users, repositories, prev, a + b) == e + ReportFrom(users, repositories, next, rest + b);
      assert ReportFrom(users, repositories, prev, a) == e + ReportFrom(users, repositories, next, rest);
      ReportAppend(users, repositories, next, rest, b);
      assert LastUser(next, rest) == LastUser(prev, a);
      Reassociate(e, ReportFrom(users, repositories, next, rest), ReportFrom(users, repositories, LastUser(prev, a), b));
    }
  }

  lemma LastUserAppend(prev: Option<int>, a: seq<Permission>, b: seq<Permission>)
    ensures LastUser(prev, a + b) == LastUser(LastUser(prev, a), b)
  {
    if b != [] {
      assert (a + b)[|a + b| - 1] == b[|b| - 1];
    } else {
      assert a + b == a;
    }
  }

  /** Reporting one more record of `ps` appends exactly that record's entry,
      and that record's user becomes the last one seen. */
  lemma ReportStepFrom(users: seq<User>, repositories: seq<Repository>, prev: Option<int>, ps: seq<Permission>, j: nat)
    requires j < |ps|
    ensures ReportFrom(users, repositories, prev, ps[..j + 1])
         == ReportFrom(users, repositories, prev, ps[..j]) + Entry(users, repositories, LastUser(prev, ps[..j]), ps[j])
    ensures LastUser(prev, ps[..j + 1]) == Some(ps[j].userId)
  {
    assert ps[..j + 1] == ps[..j] + [ps[j]];
    ReportAppend(users, repositories, prev, ps[..j], [ps[j]]);
    assert [ps[j]][1..] == [];
  }

  /** Only the repository lines of a run of records, no headers. */
  function RepositoryLines(repositories: seq<Repository>, ps: seq<Permission>): string {
    if ps == [] then "" else LineFor(repositories, ps[0]) + RepositoryLines(repositories, ps[1..])
  }

  /** A run of records of one user gets a header only when it follows another
      user's record (or nothing), and then exactly one, in front. */
  lemma {:induction false} SameUserRun(users: seq<User>, repositories: seq<Repository>, prev: Option<int>,
                                       ps: seq<Permission>, uid: int)
    requires forall i :: 0 <= i < |ps| ==> ps[i].userId == uid
    decreases |ps|
    ensures ReportFrom(users, repositories, prev, ps)
         == (if ps == [] || prev == Some(uid) then "" else HeaderFor(users, uid)) + RepositoryLines(repositories, ps)
  {
    if ps != [] {
      var rest := ps[1..];
      SameUserRun(users, repositories, Some(uid), rest, uid);
      var header := if prev == Some(uid) then "" else HeaderFor(users, uid);
      var line := LineFor(repositories, ps[0]);
      assert Entry(users, repositories, prev, ps[0]) == header + line;
      assert ReportFrom(users, repositories, Some(uid), rest) == RepositoryLines(repositories, rest) by {
        assert "" + RepositoryLines(repositories, rest) == RepositoryLines(repositories, rest);
      }
      Reassociate(header, line, RepositoryLines(repositories, rest));
    }
  }

  /** Groups `groups` belong to users `uids`, one each. */
  predicate GroupedBy(groups: seq<seq<Permission>>, uids: seq<int>) {
    |groups| == |uids| &&
    forall g, j :: 0 <= g < |groups| && 0 <= j < |groups[g]| ==> groups[g][j].userId == uids[g]
  }

  predicate DistinctIds(uids: seq<int>) {
    forall g, h :: 0 <= g < h < |uids| ==> uids[g] != uids[h]
  }

  /** The report of the groups read as separate sections: each non-empty
      group gets its user's header once, then its repository lines. */
  function Sections(users: seq<User>, repositories: seq<Repository>, groups: seq<seq<Permission>>, uids: seq<int>): string
    requires |uids| == |groups|
  {
    if groups == [] then ""
    else
      var n := |groups| - 1;
      Sections(users, repositories, groups[..n], uids[..n])
      + (if groups[n] == [] then "" else HeaderFor(users, uids[n]))
      + RepositoryLines(repositories, groups[n])
  }

  /** After the first `n` groups, the last record seen belongs to none of the later groups' users. */
  lemma {:induction false} LastUserBeforeGroup(groups: seq<seq<Permission>>, uids: seq<int>, n: nat)
    requires GroupedBy(groups, uids) && DistinctIds(uids) && n <= |groups|
    ensures forall m :: n <= m < |groups| ==> LastUser(None, Flatten(groups[..n])) != Some(uids[m])
  {
    if n > 0 {
      LastUserBeforeGroup(groups, uids, n - 1);
      assert groups[..n][..n - 1] == groups[..n - 1];
      var last := groups[n - 1];
      if last != [] {
        assert Flatten(groups[..n]) == Flatten(groups[..n - 1]) + last;
        assert last[|last| - 1].userId == uids[n - 1];
      }
    }
  }

  /** When each group holds one user's records and the users are distinct,
      the report never merges two users: it is the groups' sections in order,
      one header per non-empty group, however the cursors would run. */
  lemma {:induction false} GroupedReport(users: seq<User>, repositories: seq<Repository>,
                                         groups: seq<seq<Permission>>, uids: seq<int>)
    requires GroupedBy(groups, uids) && DistinctIds(uids)
    ensures PermissionReport(users, repositories, Flatten(groups)) == Sections(users, repositories, groups, uids)
  {
    if groups != [] {
      var n := |groups| - 1;
      var init, last := groups[..n], groups[n];
      assert GroupedBy(init, uids[..n]) && DistinctIds(uids[..n]) by {
        assert forall g :: 0 <= g < n ==> init[g] == groups[g] && uids[..n][g] == uids[g];
      }
      GroupedReport(users, repositories, init, uids[..n]);
      LastUserBeforeGroup(groups, uids, n);
      assert Flatten(groups) == Flatten(init) + last;
      var prev := LastUser(None, Flatten(init));
      ReportAppend(users, repositories, None, Flatten(init), last);
      SameUserRun(users, repositories, prev, last, uids[n]);
      assert prev != Some(uids[n]);
      var header := if last == [] then "" else HeaderFor(users, uids[n]);
      assert ReportFrom(users, repositories, prev, last) == header + RepositoryLines(repositories, last);
      Reassociate(Sections(users, repositories, init, uids[..n]), header, RepositoryLines(repositories, last));
    }
  }

  /** The groups the all-users report is built from: the records the
      service returns for each user of the snapshot, in snapshot order. */
  function PermissionGroups(users: seq<User>, find: int -> seq<Permission>): (groups: seq<seq<Permission>>)
    ensures |groups| == |users|
    ensures forall i :: 0 <= i < |users| ==> groups[i] == find(users[i].id)
  {
    seq(|users|, i requires 0 <= i < |users| => find(users[i].id))
  }

  /** When the service answers each user with that user's own records and
      ids are unique, the all-users report is one section per user with
      records, in snapshot order. */
  lemma AllUsersReportIsSections(users: seq<User>, repositories: seq<Repository>, find: int -> seq<Permission>)
    requires UniqueUserIds(users)
    requires forall i, j :: 0 <= i < |users| && 0 <= j < |find(users[i].id)| ==> find(users[i].id)[j].userId == users[i].id
    ensures PermissionReport(users, repositories, Flatten(PermissionGroups(users, find)))
         == Sections(users, repositories, PermissionGroups(users, find), UserIds(users))
  {
    var groups, uids := PermissionGroups(users, find), UserIds(users);
    assert GroupedBy(groups, uids);
    GroupedReport(users, repositories, groups, uids);
  }

  lemma ExampleLineA()
    ensures RepositoryLine(Repository(10, "repo-a", "Repo A", []), Permission(1, 10, true, false))
         == "Repository: repo-a | Permissions: Read True, Write False\n"
  {
    assert BoolToString(true) == "True" && BoolToString(false) == "False";
    assert "Repository: " + "repo-a" == "Repository: repo-a";
    assert "Repository: repo-a" + " | Permissions: Read " == "Repository: repo-a | Permissions: Read ";
    assert "Repository: repo-a | Permissions: Read " + "True" == "Repository: repo-a | Permissions: Read True";
    assert "Repository: repo-a | Permissions: Read True" + ", Write " == "Repository: repo-a | Permissions: Read True, Write ";
    assert "Repository: repo-a | Permissions: Read True, Write " + "False" == "Repository: repo-a | Permissions: Read True, Write False";
    assert "Repository: repo-a | Permissions: Read True, Write False" + "\n" == "Repository: repo-a | Permissions: Read True, Write False\n";
  }

  lemma ExampleLineB()
    ensures RepositoryLine(Repository(11, "repo-b", "Repo B", []), Permission(1, 11, false, true))
         == "Repository: repo-b | Permissions: Read False, Write True\n"
  {
    assert BoolToString(true) == "True" && BoolToString(false) == "False";
    assert "Repository: " + "repo-b" == "Repository: repo-b";
    assert "Repository: repo-b" + " | Permissions: Read " == "Repository: repo-b | Permissions: Read ";
    assert "Repository: repo-b | Permissions: Read " + "False" == "Repository: repo-b | Permissions: Read False";
    assert "Repository: repo-b | Permissions: Read False" + ", Write " == "Repository: repo-b | Permissions: Read False, Write ";
    assert "Repository: repo-b | Permissions: Read False, Write " + "True" == "Repository: repo-b | Permissions: Read False, Write True";
    assert "Repository: repo-b | Permissions: Read False, Write True" + "\n" == "Repository: repo-b | Permissions: Read False, Write True\n";
  }

  /** One user with two records: one header, then one line per record in order. */
  lemma TwoRecordExample()
    ensures PermissionReport(
              [User(1, "ab", "A", "B", [])],
              [Repository(10, "repo-a", "Repo A", []), Repository(11, "repo-b", "Repo B", [])],
              [Permission(1, 10, true, false), Permission(1, 11, false, true)])
         == "\nUser: A B\n"
            + "Repository: repo-a | Permissions: Read True, Write False\n"
            + "Repository: repo-b | Permissions: Read False, Write True\n"
  {
    var users := [User(1, "ab", "A", "B", [])];
    var repositories := [Repository(10, "repo-a", "Repo A", []), Repository(11, "repo-b", "Repo B", [])];
    assert UserById(users, 1) == Some(users[0]);
    assert RepositoryById(repositories, 10) == Some(repositories[0]);
    assert RepositoryById(repositories, 11) == Some(repositories[1]);
    var p0, p1 := Permission(1, 10, true, false), Permission(1, 11, false, true);
    var ps := [p0, p1];
    assert ps[1..] == [p1];
    assert UserHeader(users[0]) == "\nUser: A B\n";
    ExampleLineA();
    ExampleLineB();
    var line0, line1 := RepositoryLine(repositories[0], p0), RepositoryLine(repositories[1], p1);
    assert Entry(users, repositories, None, p0) == "\nUser: A B\n" + line0;
    assert Entry(users, repositories, Some(1), p1) == line1;
    assert ReportFrom(users, repositories, Some(1), [p1]) == line1 + "";
  }
}
