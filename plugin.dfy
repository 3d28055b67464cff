/**
 * The chat-bot plugin object. It holds the directory snapshot (refreshed by
 * `Prepare` before each command) and the configured exclusion list; its
 * commands read that snapshot and build their replies step by step. The two
 * write hooks do nothing; the object keeps a ghost log of their invocations.
 */
module Plugin {
  import opened Wrappers
  import opened Text
  import opened Sequences
  import opened Directory
  import opened Fields
  import opened Report
  import opened Arguments
  import opened Assignment

  /** The argument list the chat framework hands to a command; the
      create-repository command appends its defaults to it in place. */
  class ArgumentList {
    var items: seq<string>

    constructor (items: seq<string>)
      ensures this.items == items
    {
      this.items := items;
    }
  }

  class Beanstalk {
    /** The snapshot of the account's users, in the order the service listed them. */
    var users: seq<User>
    /** The snapshot of the account's repositories, in the order the service listed them. */
    var repositories: seq<Repository>
    /** The EXCLUDE_USERS setting: logins that bulk permission setting leaves alone. */
    const excludeUsers: seq<string>

    /** Every invocation of the repository-creation hook, with its argument list. */
    ghost var created: seq<seq<string>>
    /** Every invocation of the permission-setting hook. */
    ghost var granted: seq<Grant>

    constructor (excludeUsers: seq<string>)
      ensures this.excludeUsers == excludeUsers
      ensures users == [] && repositories == [] && created == [] && granted == []
    {
      this.excludeUsers := excludeUsers;
      users, repositories := [], [];
      created, granted := [], [];
    }

    /** Replaces the snapshot with what the service just listed. */
    method Prepare(fetchedUsers: seq<User>, fetchedRepositories: seq<Repository>)
      modifies this`users, this`repositories
      ensures users == fetchedUsers && repositories == fetchedRepositories
    {
      users := fetchedUsers;
      repositories := fetchedRepositories;
    }

    /** The repository-creation hook: it does nothing but is recorded. */
    ghost method CreateRepositoryHook(args: seq<string>)
      modifies this`created
      ensures created == old(created) + [args]
    {
      created := created + [args];
    }

    /** The permission-setting hook: it does nothing but is recorded. */
    ghost method SetPermissionsHook(repositoryId: int, userId: int)
      modifies this`granted
      ensures granted == old(granted) + [Grant(repositoryId, userId)]
    {
      granted := granted + [Grant(repositoryId, userId)];
    }

    /** Scans the users for the first one with id `userId`. */
    method GetUserObjectById(userId: int) returns (user: Option<User>)
      ensures user == UserById(users, userId)
    {
      for i := 0 to |users|
        invariant UserById(users[i..], userId) == UserById(users, userId)
      {
        assert users[i..][0] == users[i];
        if users[i].id == userId {
          return Some(users[i]);
        }
        assert users[i..][1..] == users[i + 1..];
      }
      return None;
    }

    /** Scans the repositories for the first one with id `repositoryId`. */
    method GetRepositoryObjectById(repositoryId: int) returns (repository: Option<Repository>)
      ensures repository == RepositoryById(repositories, repositoryId)
    {
      for i := 0 to |repositories|
        invariant RepositoryById(repositories[i..], repositoryId) == RepositoryById(repositories, repositoryId)
      {
        assert repositories[i..][0] == repositories[i];
        if repositories[i].id == repositoryId {
          return Some(repositories[i]);
        }
        assert repositories[i..][1..] == repositories[i + 1..];
      }
      return None;
    }

    /** Scans the users for the first whose stripped login is the stripped `login`. */
    method GetUserId(login: string) returns (id: Option<int>)
      ensures id == UserIdByLogin(users, login)
    {
      var key := Strip(login);
      for i := 0 to |users|
        invariant UserIdByLogin(users[i..], login) == UserIdByLogin(users, login)
      {
        assert users[i..][0] == users[i];
        if Strip(users[i].login) == key {
          return Some(users[i].id);
        }
        assert users[i..][1..] == users[i + 1..];
      }
      return None;
    }

    /** Scans the repositories for the first whose stripped name is the stripped `name`. */
    method GetRepositoryId(name: string) returns (id: Option<int>)
      ensures id == RepositoryIdByName(repositories, name)
    {
      var key := Strip(name);
      for i := 0 to |repositories|
        invariant RepositoryIdByName(repositories[i..], name) == RepositoryIdByName(repositories, name)
      {
        assert repositories[i..][0] == repositories[i];
        if Strip(repositories[i].name) == key {
          return Some(repositories[i].id);
        }
        assert repositories[i..][1..] == repositories[i + 1..];
      }
      return None;
    }

    /** Renders a repository's fields, all but its title. */
    method ReturnRepositoryData(repository: Repository) returns (data: string)
      ensures data == FieldData(repository.fields, RepositoryHiddenKeys)
    {
      data := "";
      for i := 0 to |repository.fields|
        invariant data == FieldData(repository.fields[..i], RepositoryHiddenKeys)
      {
        var f := repository.fields[i];
        if f.key != "title" {
          data := data + Line(f);
        }
        assert repository.fields[..i + 1][..i] == repository.fields[..i];
      }
      assert repository.fields[..|repository.fields|] == repository.fields;
    }

    /** Renders a user's fields, all but the first and last name. */
    method ReturnUserData(user: User) returns (data: string)
      ensures data == FieldData(user.fields, UserHiddenKeys)
    {
      data := "";
      for i := 0 to |user.fields|
        invariant data == FieldData(user.fields[..i], UserHiddenKeys)
      {
        var f := user.fields[i];
        assert f.key in UserHiddenKeys <==> f.key == "first_name" || f.key == "last_name";
        if f.key != "first_name" && f.key != "last_name" {
          data := data + Line(f);
        }
        assert user.fields[..i + 1][..i] == user.fields[..i];
      }
      assert user.fields[..|user.fields|] == user.fields;
    }
    /** The cursors once the last record handled belonged to user `last`
        (`None` before the first record): the user cursor is that user, and
        each cursor holds what a fresh lookup of its own id would find. */
    ghost predicate CursorsTrack(last: Option<int>, user: Option<User>, repository: Option<Repository>)
      reads this
    {
      && last == (if user.None? then None else Some(user.value.id))
      && (user.Some? ==> user == UserById(users, user.value.id))
      && (repository.Some? ==> repository == RepositoryById(repositories, repository.value.id))
    }

    /** Handles one record: moves each cursor when the record names another
        id, and produces a header when the user cursor moved, then the line. */
    method ReportRecord(ghost last: Option<int>, p: Permission, user: Option<User>, repository: Option<Repository>)
      returns (line: string, nextUser: Option<User>, nextRepository: Option<Repository>)
      requires Resolves(users, repositories, p) && CursorsTrack(last, user, repository)
      ensures CursorsTrack(Some(p.userId), nextUser, nextRepository)
      ensures line == Entry(users, repositories, last, p)
    {
      nextRepository := repository;
      if repository.None? || repository.value.id != p.repositoryId {
        nextRepository := GetRepositoryObjectById(p.repositoryId);
      }
      nextUser := user;
      line := "";
      if user.None? || user.value.id != p.userId {
        nextUser := GetUserObjectById(p.userId);
        line := UserHeader(nextUser.value);
      }
      line := line + RepositoryLine(nextRepository.value, p);
    }

    /** Reports one group of records after a record of user `last`, carrying
        the cursors through. */
    method ReportGroup(ghost last: Option<int>, group: seq<Permission>, user: Option<User>, repository: Option<Repository>)
      returns (text: string, nextUser: Option<User>, nextRepository: Option<Repository>)
      requires AllResolve(users, repositories, group) && CursorsTrack(last, user, repository)
      ensures text == ReportFrom(users, repositories, last, group)
      ensures CursorsTrack(LastUser(last, group), nextUser, nextRepository)
    {
      text, nextUser, nextRepository := "", user, repository;
      for j := 0 to |group|
        invariant text == ReportFrom(users, repositories, last, group[..j])
        invariant CursorsTrack(LastUser(last, group[..j]), nextUser, nextRepository)
      {
        var line;
        line, nextUser, nextRepository := ReportRecord(LastUser(last, group[..j]), group[j], nextUser, nextRepository);
        ReportStepFrom(users, repositories, last, group, j);
        text := text + line;
      }
      assert group[..|group|] == group;
    }

    /** Walks the records group by group, keeping a repository cursor and a
        user cursor across groups, and returns the permission report of all
        the records in order. */
    method ParsePermissions(groups: seq<seq<Permission>>) returns (report: string)
      requires forall g :: 0 <= g < |groups| ==> AllResolve(users, repositories, groups[g])
      ensures report == PermissionReport(users, repositories, Flatten(groups))
      ensures Flatten(groups) == [] ==> report == ""
    {
      report := "";
      var repository: Option<Repository> := None;
      var user: Option<User> := None;
      for g := 0 to |groups|
        invariant report == ReportFrom(users, repositories, None, Flatten(groups[..g]))
        invariant CursorsTrack(LastUser(None, Flatten(groups[..g])), user, repository)
      {
        ghost var done := Flatten(groups[..g]);
        assert groups[..g + 1][..g] == groups[..g];
        assert Flatten(groups[..g + 1]) == done + groups[g];
        ReportAppend(users, repositories, None, done, groups[g]);
        LastUserAppend(None, done, groups[g]);
        var text;
        text, user, repository := ReportGroup(LastUser(None, done), groups[g], user, repository);
        report := report + text;
      }
      assert groups[..|groups|] == groups;
    }

    /** Collects, for every user of the snapshot in order, the records the
        service returns for that user's id. */
    method GetAllPermissions(find: int -> seq<Permission>) returns (groups: seq<seq<Permission>>)
      ensures groups == PermissionGroups(users, find)
    {
      groups := [];
      for i := 0 to |users|
        invariant groups == PermissionGroups(users[..i], find)
      {
        groups := groups + [find(users[i].id)];
      }
      assert users[..|users|] == users;
    }

    /** The get-permissions command. With exactly one argument it reports the
        records of the user with that login, or says the user does not exist;
        otherwise it reports the records of every user. `find` stands for the
        service's permission query. */
    method GetPermissions(args: seq<string>, find: int -> seq<Permission>) returns (reply: string)
      requires |args| == 1 && UserIdByLogin(users, args[0]).Some? ==>
                 AllResolve(users, repositories, find(UserIdByLogin(users, args[0]).value))
      requires |args| != 1 ==> forall i :: 0 <= i < |users| ==> AllResolve(users, repositories, find(users[i].id))
      ensures |args| == 1 && UserIdByLogin(users, args[0]).None? ==>
                reply == "The user " + args[0] + " doesn't exist"
      ensures |args| == 1 && UserIdByLogin(users, args[0]).Some? ==>
                reply == PermissionReport(users, repositories, find(UserIdByLogin(users, args[0]).value))
      ensures |args| != 1 ==> reply == PermissionReport(users, repositories, Flatten(PermissionGroups(users, find)))
    {
      if |args| == 1 {
        var userId := GetUserId(args[0]);
        if userId.Some? {
          UserIdByLoginIsFirstMatch(users, args[0]);
          var i :| IsFirstUserWithLogin(users, args[0], i) && users[i].id == userId.value;
          var group := find(userId.value);
          assert Flatten([group]) == group by {
            assert [group][..0] == [];
          }
          reply := ParsePermissions([group]);
          return;
        }
        return "The user " + args[0] + " doesn't exist";
      }
      var groups := GetAllPermissions(find);
      reply := ParsePermissions(groups);
    }

    /** The single-user permission request: the hook is invoked for the
        resolved ids unless the login is excluded, and the reply says what
        happened (nothing, for an excluded user). */
    method SetPermissionsSingleUser(name: string, login: string) returns (reply: Option<string>)
      modifies this`granted
      ensures reply == SingleUserReply(users, repositories, excludeUsers, name, login)
      ensures granted == old(granted) + SingleUserGrants(users, repositories, excludeUsers, name, login)
    {
      var repositoryId := GetRepositoryId(name);
      var userId := GetUserId(login);
      if repositoryId.Some? && userId.Some? && login !in excludeUsers {
        SetPermissionsHook(repositoryId.value, userId.value);
        return Some("Set permissions for user: " + login + "(" + IntToString(userId.value) + ")\n");
      }
      if repositoryId.None? {
        return Some("Repository '" + name + "' not found\n");
      }
      if userId.None? {
        return Some("User '" + login + "' not found\n");
      }
      return None;
    }

    /** The single-user request for user `i` of the snapshot, under its own
        login: the reply and grants are that user's outcome. */
    method SetPermissionsForUser(ghost os: seq<Outcome>, name: string, i: nat) returns (reply: Option<string>)
      requires os == Outcomes(users, repositories, excludeUsers, name) && i < |users|
      modifies this`granted
      ensures reply == os[i].reply && granted == old(granted) + os[i].grants
      ensures reply.None? ==> os[i].grants == []
    {
      OutcomeAt(users, repositories, excludeUsers, name, i);
      NoReplyNoGrant(users, repositories, excludeUsers, name, users[i].login);
      reply := SetPermissionsSingleUser(name, users[i].login);
    }

    /** The as-written loop over the users: appends each user's single-user
        reply to `text`, and stops with `None` at the first user without one
        (where the source raises). */
    method AppendRepliesAsWritten(ghost os: seq<Outcome>, name: string, text: string) returns (result: Option<string>)
      requires os == Outcomes(users, repositories, excludeUsers, name)
      modifies this`granted
      ensures result == if AsWrittenProgress(os, |os|).text.None? then None
                        else Some(text + AsWrittenProgress(os, |os|).text.value)
      ensures granted == old(granted) + AsWrittenProgress(os, |os|).grants
    {
      var accumulated := text;
      for i := 0 to |users|
        invariant AsWrittenProgress(os, i).text.Some?
        invariant accumulated == text + AsWrittenProgress(os, i).text.value
        invariant granted == old(granted) + AsWrittenProgress(os, i).grants
      {
        var userReply := SetPermissionsForUser(os, name, i);
        AsWrittenStep(os, i);
        Reassociate(old(granted), AsWrittenProgress(os, i).grants, os[i].grants);
        if userReply.None? {
          CrashIsFinal(os, i + 1, |os|);
          return None;
        }
        Reassociate(text, AsWrittenProgress(os, i).text.value, userReply.value);
        accumulated := accumulated + userReply.value;
      }
      return Some(accumulated);
    }

    /** The all-users permission request as the code is written: after the
        header, each user's single-user reply is appended, and the first
        `None` reply (an excluded user) raises. */
    method SetPermissionsAllUsers(name: string) returns (reply: Reply)
      modifies this`granted
      ensures reply == AllUsersAsWritten(users, repositories, excludeUsers, name)
      ensures granted == old(granted) + AsWrittenGrants(users, repositories, excludeUsers, name)
    {
      var repositoryId := GetRepositoryId(name);
      if repositoryId.None? {
        return NoReply;
      }
      ghost var os := Outcomes(users, repositories, excludeUsers, name);
      var text := AppendRepliesAsWritten(os, name, SettingHeader(name, repositoryId.value));
      if text.None? {
        return Crash(ConcatenationError);
      }
      return Message(text.value);
    }

    /** The intended loop over the users: appends each user's single-user
        reply to `text`, skipping users without one. */
    method AppendRepliesSkipping(ghost os: seq<Outcome>, name: string, text: string) returns (result: string)
      requires os == Outcomes(users, repositories, excludeUsers, name)
      modifies this`granted
      ensures result == text + SkippingText(os, |os|)
      ensures granted == old(granted) + AllGrants(os, |os|)
    {
      result := text;
      for i := 0 to |users|
        invariant result == text + SkippingText(os, i)
        invariant granted == old(granted) + AllGrants(os, i)
      {
        var userReply := SetPermissionsForUser(os, name, i);
        SkippingStep(os, i);
        Reassociate(old(granted), AllGrants(os, i), os[i].grants);
        if userReply.Some? {
          Reassociate(text, SkippingText(os, i), userReply.value);
          result := result + userReply.value;
        } else {
          assert SkippingText(os, i + 1) == SkippingText(os, i) + [];
        }
      }
    }

    /** The all-users permission request as intended: excluded users, whose
        single-user reply is `None`, are skipped. */
    method SetPermissionsAllUsersSkippingExcluded(name: string) returns (reply: Reply)
      modifies this`granted
      ensures reply == AllUsersSkippingExcluded(users, repositories, excludeUsers, name)
      ensures granted == old(granted) + SkippingGrants(users, repositories, excludeUsers, name)
    {
      var repositoryId := GetRepositoryId(name);
      if repositoryId.None? {
        return NoReply;
      }
      ghost var os := Outcomes(users, repositories, excludeUsers, name);
      var text := AppendRepliesSkipping(os, name, SettingHeader(name, repositoryId.value));
      return Message(text);
    }

    /** The set-permissions command as written: one argument names a
        repository to open to every user, two name a repository and a user;
        any other count gets no reply. With one argument the request raises
        as soon as it reaches an excluded user. */
    method SetPermissions(args: seq<string>) returns (reply: Reply)
      modifies this`granted
      ensures |args| == 1 ==>
                && reply == AllUsersAsWritten(users, repositories, excludeUsers, args[0])
                && granted == old(granted) + AsWrittenGrants(users, repositories, excludeUsers, args[0])
      ensures |args| == 2 ==>
                && reply == (match SingleUserReply(users, repositories, excludeUsers, args[0], args[1])
                             case None => NoReply
                             case Some(text) => Message(text))
                && granted == old(granted) + SingleUserGrants(users, repositories, excludeUsers, args[0], args[1])
      ensures |args| != 1 && |args| != 2 ==> reply == NoReply && granted == old(granted)
    {
      if |args| == 1 {
        reply := SetPermissionsAllUsers(args[0]);
      } else if |args| == 2 {
        var userReply := SetPermissionsSingleUser(args[0], args[1]);
        reply := if userReply.Some? then Message(userReply.value) else NoReply;
      } else {
        reply := NoReply;
      }
    }

    /** The set-permissions command as intended: the same, except that with
        one argument excluded users are skipped instead of raising. */
    method SetPermissionsSkippingExcluded(args: seq<string>) returns (reply: Reply)
      modifies this`granted
      ensures |args| == 1 ==>
                && reply == AllUsersSkippingExcluded(users, repositories, excludeUsers, args[0])
                && granted == old(granted) + SkippingGrants(users, repositories, excludeUsers, args[0])
      ensures |args| == 2 ==>
                && reply == (match SingleUserReply(users, repositories, excludeUsers, args[0], args[1])
                             case None => NoReply
                             case Some(text) => Message(text))
                && granted == old(granted) + SingleUserGrants(users, repositories, excludeUsers, args[0], args[1])
      ensures |args| != 1 && |args| != 2 ==> reply == NoReply && granted == old(granted)
    {
      if |args| == 1 {
        reply := SetPermissionsAllUsersSkippingExcluded(args[0]);
      } else if |args| == 2 {
        var userReply := SetPermissionsSingleUser(args[0], args[1]);
        reply := if userReply.Some? then Message(userReply.value) else NoReply;
      } else {
        reply := NoReply;
      }
    }

    /** The create-repository command: pads the caller's argument list in
        place with the defaults, validates it, invokes the creation hook when
        it is valid, and replies with the confirmation or the first error. */
    method CreateRepository(args: ArgumentList) returns (reply: string)
      requires |args.items| >= 1
      modifies args, this`created
      ensures args.items == PadArguments(old(args.items))
      ensures reply == CreateRepositoryReply(args.items)
      ensures created == old(created) + (if ParseCreateRepositoryArguments(args.items).Valid? then [args.items] else [])
    {
      var count := |args.items|;
      if count < 2 {
        args.items := args.items + [args.items[0]];
      }
      if count < 3 {
        args.items := args.items + [DefaultLabelColor];
      }
      if count < 4 {
        args.items := args.items + [DefaultVcs];
      }
      var parsed := ParseCreateRepositoryArguments(args.items);
      if parsed.Valid? {
        CreateRepositoryHook(args.items);
      }
      reply := CreateRepositoryReply(args.items);
    }

    /** The get-user-data command: the fields of the last user whose login is
        exactly `login`, or a message that the user does not exist when that
        renders to nothing. */
    method GetUserData(login: string) returns (reply: string)
      ensures reply == if UserDataFor(users, login) != "" then UserDataFor(users, login)
                       else "The user '" + login + "' does not exist"
    {
      var data := "";
      for i := 0 to |users|
        invariant data == UserDataFor(users[..i], login)
      {
        if login == users[i].login {
          data := ReturnUserData(users[i]);
        }
        assert users[..i + 1][..i] == users[..i];
      }
      assert users[..|users|] == users;
      if data != "" {
        return data;
      }
      return "The user '" + login + "' does not exist";
    }
  }
}
