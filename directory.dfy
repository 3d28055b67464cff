/**
 * The directory snapshot the plugin takes at the start of every command:
 * the account's users and repositories as the hosting service returned them,
 * and the first-match lookups the plugin runs over them.
 */
module Directory {
  import opened Wrappers
  import opened Text

  /** One key/value pair of a record, the value already rendered as text. */
  datatype Field = Field(key: string, value: string)

  /** A user record. `fields` is the whole record in the order the service
      returned it (the order `iteritems()` walks); the other components are
      the entries the plugin reads by key. */
  datatype User = User(id: int, login: string, firstName: string, lastName: string, fields: seq<Field>)

  /** A repository record, with the same reading of `fields`. */
  datatype Repository = Repository(id: int, name: string, title: string, fields: seq<Field>)

  /** A record is well formed when its keys are distinct (it is a dictionary)
      and the entries read by key are among its fields. */
  predicate DistinctKeys(fields: seq<Field>) {
    forall i, j :: 0 <= i < j < |fields| ==> fields[i].key != fields[j].key
  }

  predicate WellFormedUser(u: User) {
    && DistinctKeys(u.fields)
    && Field("id", IntToString(u.id)) in u.fields
    && Field("login", u.login) in u.fields
    && Field("first_name", u.firstName) in u.fields
    && Field("last_name", u.lastName) in u.fields
  }

  predicate WellFormedRepository(r: Repository) {
    && DistinctKeys(r.fields)
    && Field("id", IntToString(r.id)) in r.fields
    && Field("name", r.name) in r.fields
    && Field("title", r.title) in r.fields
  }

  /** The ids of the users, in snapshot order. */
  function UserIds(users: seq<User>): (ids: seq<int>)
    ensures |ids| == |users|
    ensures forall i :: 0 <= i < |users| ==> ids[i] == users[i].id
  {
    seq(|users|, i requires 0 <= i < |users| => users[i].id)
  }

  /** `login` names user `u`: equal once both are stripped, case-sensitively. */
  predicate LoginMatches(u: User, login: string) {
    Strip(u.login) == Strip(login)
  }

  /** `name` names repository `r`: equal once both are stripped, case-sensitively. */
  predicate NameMatches(r: Repository, name: string) {
    Strip(r.name) == Strip(name)
  }

  /** Position `i` holds the first user with id `id`. */
  predicate IsFirstUserWithId(users: seq<User>, id: int, i: int) {
    0 <= i < |users| && users[i].id == id && forall j :: 0 <= j < i ==> users[j].id != id
  }

  /** Position `i` holds the first repository with id `id`. */
  predicate IsFirstRepositoryWithId(repositories: seq<Repository>, id: int, i: int) {
    0 <= i < |repositories| && repositories[i].id == id && forall j :: 0 <= j < i ==> repositories[j].id != id
  }

  /** Position `i` holds the first user that `login` names. */
  predicate IsFirstUserWithLogin(users: seq<User>, login: string, i: int) {
    0 <= i < |users| && LoginMatches(users[i], login) && forall j :: 0 <= j < i ==> !LoginMatches(users[j], login)
  }

  /** Position `i` holds the first repository that `name` names. */
  predicate IsFirstRepositoryWithName(repositories: seq<Repository>, name: string, i: int) {
    0 <= i < |repositories| && NameMatches(repositories[i], name) &&
    forall j :: 0 <= j < i ==> !NameMatches(repositories[j], name)
  }

  /** The first user whose id is exactly `id`; `None` when there is none. */
  function UserById(users: seq<User>, id: int): (r: Option<User>)
    ensures r.Some? ==> r.value.id == id
  {
    if users == [] then None
    else if users[0].id == id then Some(users[0])
    else UserById(users[1..], id)
  }

  /** The first repository whose id is exactly `id`; `None` when there is none. */
  function RepositoryById(repositories: seq<Repository>, id: int): (r: Option<Repository>)
    ensures r.Some? ==> r.value.id == id
  {
    if repositories == [] then None
    else if repositories[0].id == id then Some(repositories[0])
    else RepositoryById(repositories[1..], id)
  }

  /** The id of the first user whose login, stripped, equals the stripped `login`. */
  function UserIdByLogin(users: seq<User>, login: string): Option<int> {
    if users == [] then None
    else if LoginMatches(users[0], login) then Some(users[0].id)
    else UserIdByLogin(users[1..], login)
  }

  /** The id of the first repository whose name, stripped, equals the stripped `name`. */
  function RepositoryIdByName(repositories: seq<Repository>, name: string): Option<int> {
    if repositories == [] then None
    else if NameMatches(repositories[0], name) then Some(repositories[0].id)
    else RepositoryIdByName(repositories[1..], name)
  }

  /** A lookup by id returns the user at the first position holding that id. */
  lemma {:induction false} UserByIdAt(users: seq<User>, id: int, i: nat)
    requires IsFirstUserWithId(users, id, i)
    ensures UserById(users, id) == Some(users[i])
  {
    if i > 0 {
      assert users[0].id != id;
      assert IsFirstUserWithId(users[1..], id, i - 1) by {
        assert forall j :: 0 <= j < i - 1 ==> users[1..][j] == users[j + 1];
      }
      UserByIdAt(users[1..], id, i - 1);
    }
  }

  /** Lookup by id finds the first user with exactly that id, and finds
      nothing exactly when no user has it. */
  lemma {:induction false} UserByIdIsFirstMatch(users: seq<User>, id: int)
    ensures UserById(users, id).None? <==> forall i :: 0 <= i < |users| ==> users[i].id != id
    ensures UserById(users, id).Some? ==>
              exists i :: IsFirstUserWithId(users, id, i) && users[i] == UserById(users, id).value
  {
    if users != [] {
      if users[0].id == id {
        assert IsFirstUserWithId(users, id, 0);
      } else {
        UserByIdIsFirstMatch(users[1..], id);
        assert forall i :: 1 <= i < |users| ==> users[i] == users[1..][i - 1];
        if UserById(users[1..], id).Some? {
          var i :| IsFirstUserWithId(users[1..], id, i) && users[1..][i] == UserById(users[1..], id).value;
          assert IsFirstUserWithId(users, id, i + 1);
        }
      }
    }
  }

  /** A lookup by id returns the repository at the first position holding that id. */
  lemma {:induction false} RepositoryByIdAt(repositories: seq<Repository>, id: int, i: nat)
    requires IsFirstRepositoryWithId(repositories, id, i)
    ensures RepositoryById(repositories, id) == Some(repositories[i])
  {
    if i > 0 {
      assert repositories[0].id != id;
      assert IsFirstRepositoryWithId(repositories[1..], id, i - 1) by {
        assert forall j :: 0 <= j < i - 1 ==> repositories[1..][j] == repositories[j + 1];
      }
      RepositoryByIdAt(repositories[1..], id, i - 1);
    }
  }

  /** Lookup by id finds the first repository with exactly that id, and
      finds nothing exactly when no repository has it. */
  lemma {:induction false} RepositoryByIdIsFirstMatch(repositories: seq<Repository>, id: int)
    ensures RepositoryById(repositories, id).None? <==> forall i :: 0 <= i < |repositories| ==> repositories[i].id != id
    ensures RepositoryById(repositories, id).Some? ==>
              exists i :: IsFirstRepositoryWithId(repositories, id, i) &&
                          repositories[i] == RepositoryById(repositories, id).value
  {
    if repositories != [] {
      if repositories[0].id == id {
        assert IsFirstRepositoryWithId(repositories, id, 0);
      } else {
        RepositoryByIdIsFirstMatch(repositories[1..], id);
        assert forall i :: 1 <= i < |repositories| ==> repositories[i] == repositories[1..][i - 1];
        if RepositoryById(repositories[1..], id).Some? {
          var i :| IsFirstRepositoryWithId(repositories[1..], id, i) &&
                   repositories[1..][i] == RepositoryById(repositories[1..], id).value;
          assert IsFirstRepositoryWithId(repositories, id, i + 1);
        }
      }
    }
  }

  /** A lookup by login gives the id of the first user the login names. */
  lemma {:induction false} UserIdByLoginAt(users: seq<User>, login: string, i: nat)
    requires IsFirstUserWithLogin(users, login, i)
    ensures UserIdByLogin(users, login) == Some(users[i].id)
  {
    if i > 0 {
      assert !LoginMatches(users[0], login);
      assert IsFirstUserWithLogin(users[1..], login, i - 1) by {
        assert forall j :: 0 <= j < i - 1 ==> users[1..][j] == users[j + 1];
      }
      UserIdByLoginAt(users[1..], login, i - 1);
    }
  }

  /** Lookup by login gives the id of the first user the login names (after
      stripping, case-sensitively), and nothing exactly when it names none. */
  lemma {:induction false} UserIdByLoginIsFirstMatch(users: seq<User>, login: string)
    ensures UserIdByLogin(users, login).None? <==> forall i :: 0 <= i < |users| ==> !LoginMatches(users[i], login)
    ensures UserIdByLogin(users, login).Some? ==>
              exists i :: IsFirstUserWithLogin(users, login, i) && users[i].id == UserIdByLogin(users, login).value
  {
    if users != [] {
      if LoginMatches(users[0], login) {
        assert IsFirstUserWithLogin(users, login, 0);
      } else {
        UserIdByLoginIsFirstMatch(users[1..], login);
        assert forall i :: 1 <= i < |users| ==> users[i] == users[1..][i - 1];
        if UserIdByLogin(users[1..], login).Some? {
          var i :| IsFirstUserWithLogin(users[1..], login, i) && users[1..][i].id == UserIdByLogin(users[1..], login).value;
          assert IsFirstUserWithLogin(users, login, i + 1);
        }
      }
    }
  }

  /** A lookup by name gives the id of the first repository the name names. */
  lemma {:induction false} RepositoryIdByNameAt(repositories: seq<Repository>, name: string, i: nat)
    requires IsFirstRepositoryWithName(repositories, name, i)
    ensures RepositoryIdByName(repositories, name) == Some(repositories[i].id)
  {
    if i > 0 {
      assert !NameMatches(repositories[0], name);
      assert IsFirstRepositoryWithName(repositories[1..], name, i - 1) by {
        assert forall j :: 0 <= j < i - 1 ==> repositories[1..][j] == repositories[j + 1];
      }
      RepositoryIdByNameAt(repositories[1..], name, i - 1);
    }
  }

  /** Lookup by name gives the id of the first repository the name names
      (after stripping, case-sensitively), and nothing exactly when it names none. */
  lemma {:induction false} RepositoryIdByNameIsFirstMatch(repositories: seq<Repository>, name: string)
    ensures RepositoryIdByName(repositories, name).None? <==>
              forall i :: 0 <= i < |repositories| ==> !NameMatches(repositories[i], name)
    ensures RepositoryIdByName(repositories, name).Some? ==>
              exists i :: IsFirstRepositoryWithName(repositories, name, i) &&
                          repositories[i].id == RepositoryIdByName(repositories, name).value
  {
    if repositories != [] {
      if NameMatches(repositories[0], name) {
        assert IsFirstRepositoryWithName(repositories, name, 0);
      } else {
        RepositoryIdByNameIsFirstMatch(repositories[1..], name);
        assert forall i :: 1 <= i < |repositories| ==> repositories[i] == repositories[1..][i - 1];
        if RepositoryIdByName(repositories[1..], name).Some? {
          var i :| IsFirstRepositoryWithName(repositories[1..], name, i) &&
                   repositories[1..][i].id == RepositoryIdByName(repositories[1..], name).value;
          assert IsFirstRepositoryWithName(repositories, name, i + 1);
        }
      }
    }
  }

  /** A login padded with whitespace finds the same user as the bare login. */
  lemma PaddedLoginFindsSameUser(users: seq<User>, pre: string, login: string, post: string)
    requires AllWhitespace(pre) && AllWhitespace(post)
    ensures UserIdByLogin(users, pre + login + post) == UserIdByLogin(users, login)
  {
    StripIgnoresPadding(pre, login, post);
  }

  /** A repository name padded with whitespace finds the same repository. */
  lemma PaddedNameFindsSameRepository(repositories: seq<Repository>, pre: string, name: string, post: string)
    requires AllWhitespace(pre) && AllWhitespace(post)
    ensures RepositoryIdByName(repositories, pre + name + post) == RepositoryIdByName(repositories, name)
  {
    StripIgnoresPadding(pre, name, post);
  }

  /** Logins are told apart by stripped, case-sensitive comparison, and no two
      users share an id. */
  predicate UniqueLogins(users: seq<User>) {
    forall i, j :: 0 <= i < j < |users| ==> Strip(users[i].login) != Strip(users[j].login)
  }

  predicate UniqueUserIds(users: seq<User>) {
    forall i, j :: 0 <= i < j < |users| ==> users[i].id != users[j].id
  }

  /** When logins are unique, each user's own login finds that user's id. */
  lemma OwnLoginFindsUser(users: seq<User>, i: nat)
    requires UniqueLogins(users) && i < |users|
    ensures UserIdByLogin(users, users[i].login) == Some(users[i].id)
  {
    assert IsFirstUserWithLogin(users, users[i].login, i);
    UserIdByLoginAt(users, users[i].login, i);
  }

  /** The lookup by login is case-sensitive: "Alice" does not find "alice". */
  lemma LoginLookupIsCaseSensitive()
    ensures UserIdByLogin([User(7, "alice", "Alice", "Smith", [])], "Alice") == None
    ensures UserIdByLogin([User(7, "alice", "Alice", "Smith", [])], "alice") == Some(7)
  {
    var users := [User(7, "alice", "Alice", "Smith", [])];
    var empty := "";
    assert empty + "alice" + empty == "alice";
    StripUnique(empty, "alice", empty);
    assert empty + "Alice" + empty == "Alice";
    StripUnique(empty, "Alice", empty);
    assert !LoginMatches(users[0], "Alice");
  }
}
