/**
 * Rendering a record as the `key : value` lines the user-data and
 * repository-data commands reply with, leaving out the keys already shown
 * elsewhere.
 */
module Fields {
  import opened Text
  import opened Sequences
  import opened Directory

  /** The user keys the user-data rendering leaves out (the name is shown in the header). */
  const UserHiddenKeys: seq<string> := ["first_name", "last_name"]

  /** The repository key the repository-data rendering leaves out. */
  const RepositoryHiddenKeys: seq<string> := ["title"]

  /** One rendered field: `key : value` and a line feed. */
  function Line(f: Field): string {
    f.key + " : " + f.value + "\n"
  }

  /** The text the rendering loop accumulates: the fields walked in order,
      each contributing its line unless its key is hidden. */
  function FieldData(fields: seq<Field>, hidden: seq<string>): string {
    if fields == [] then ""
    else
      var last := fields[|fields| - 1];
      FieldData(fields[..|fields| - 1], hidden) + (if last.key in hidden then "" else Line(last))
  }

  /** The fields whose key is not hidden, in their original order. */
  function Visible(fields: seq<Field>, hidden: seq<string>): seq<Field> {
    if fields == [] then []
    else (if fields[0].key in hidden then [] else [fields[0]]) + Visible(fields[1..], hidden)
  }

  /** The visible fields are exactly the fields whose key is not hidden, and
      there are no more of them than fields. */
  lemma {:induction false} VisibleMembers(fields: seq<Field>, hidden: seq<string>)
    ensures forall f :: f in Visible(fields, hidden) <==> f in fields && f.key !in hidden
    ensures |Visible(fields, hidden)| <= |fields|
  {
    if fields != [] {
      VisibleMembers(fields[1..], hidden);
      assert fields == [fields[0]] + fields[1..];
    }
  }

  /** Every field rendered, in order. */
  function Lines(fields: seq<Field>): string {
    if fields == [] then "" else Line(fields[0]) + Lines(fields[1..])
  }

  /** Filtering keeps the order: the visible fields of a concatenation are
      the visible fields of each part, concatenated. */
  lemma {:induction false} VisibleAppend(a: seq<Field>, b: seq<Field>, hidden: seq<string>)
    ensures Visible(a + b, hidden) == Visible(a, hidden) + Visible(b, hidden)
  {
    if a != [] {
      assert (a + b)[1..] == a[1..] + b;
      VisibleAppend(a[1..], b, hidden);
    } else {
      assert a + b == b;
    }
  }

  lemma {:induction false} LinesAppend(a: seq<Field>, b: seq<Field>)
    ensures Lines(a + b) == Lines(a) + Lines(b)
  {
    if a != [] {
      assert (a + b)[1..] == a[1..] + b;
      LinesAppend(a[1..], b);
    } else {
      assert a + b == b;
    }
  }

  /** The accumulated text is exactly one line per visible field, in record
      order: the hidden keys, and only they, are skipped. */
  lemma {:induction false} FieldDataIsVisibleLines(fields: seq<Field>, hidden: seq<string>)
    ensures FieldData(fields, hidden) == Lines(Visible(fields, hidden))
  {
    if fields != [] {
      var init, last := fields[..|fields| - 1], fields[|fields| - 1];
      assert fields == init + [last];
      FieldDataIsVisibleLines(init, hidden);
      VisibleAppend(init, [last], hidden);
      LinesAppend(Visible(init, hidden), Visible([last], hidden));
      assert Visible([last], hidden) == (if last.key in hidden then [] else [last]) + Visible([], hidden);
    }
  }

  /** When no key is hidden, every field is visible. */
  lemma {:induction false} NothingHiddenShowsAll(fields: seq<Field>, hidden: seq<string>)
    requires forall i :: 0 <= i < |fields| ==> fields[i].key !in hidden
    ensures Visible(fields, hidden) == fields
  {
    if fields != [] {
      NothingHiddenShowsAll(fields[1..], hidden);
    }
  }

  /** The rendering of field `k` sits between those of the fields before and after it. */
  lemma LinesAt(fields: seq<Field>, k: nat)
    requires k < |fields|
    ensures Lines(fields) == Lines(fields[..k]) + Line(fields[k]) + Lines(fields[k + 1..])
  {
    var before, here, after := fields[..k], [fields[k]], fields[k + 1..];
    assert fields[k..] == here + after by {
      assert fields[k..][1..] == after;
    }
    assert fields == before + fields[k..];
    LinesAppend(before, here + after);
    LinesAppend(here, after);
    assert Lines(here) == Line(fields[k]) + Lines([]) by {
      assert here[1..] == [];
    }
    assert Line(fields[k]) + Lines([]) == Line(fields[k]);
    Reassociate(Lines(before), Line(fields[k]), Lines(after));
  }

  /** `line` occurs in `text`. */
  predicate Occurs(line: string, text: string) {
    exists i :: 0 <= i <= |text| && line <= text[i..]
  }

  lemma OccursBetween(before: string, line: string, after: string)
    ensures Occurs(line, before + line + after)
  {
    assert (before + line + after)[|before|..] == line + after;
  }

  /** Every field with a visible key shows up as its own line. */
  lemma VisibleFieldShown(fields: seq<Field>, hidden: seq<string>, f: Field)
    requires f in fields && f.key !in hidden
    ensures Occurs(Line(f), FieldData(fields, hidden))
  {
    var vis := Visible(fields, hidden);
    VisibleMembers(fields, hidden);
    var k :| 0 <= k < |vis| && vis[k] == f;
    FieldDataIsVisibleLines(fields, hidden);
    LinesAt(vis, k);
    OccursBetween(Lines(vis[..k]), Line(f), Lines(vis[k + 1..]));
  }

  /** A well-formed user's data shows its login and id lines. */
  lemma UserDataShowsLoginAndId(u: User)
    requires WellFormedUser(u)
    ensures Occurs(Line(Field("login", u.login)), FieldData(u.fields, UserHiddenKeys))
    ensures Occurs(Line(Field("id", IntToString(u.id))), FieldData(u.fields, UserHiddenKeys))
  {
    VisibleFieldShown(u.fields, UserHiddenKeys, Field("login", u.login));
    VisibleFieldShown(u.fields, UserHiddenKeys, Field("id", IntToString(u.id)));
  }

  /** A well-formed repository's data shows its name and id lines. */
  lemma RepositoryDataShowsNameAndId(r: Repository)
    requires WellFormedRepository(r)
    ensures Occurs(Line(Field("name", r.name)), FieldData(r.fields, RepositoryHiddenKeys))
    ensures Occurs(Line(Field("id", IntToString(r.id))), FieldData(r.fields, RepositoryHiddenKeys))
  {
    VisibleFieldShown(r.fields, RepositoryHiddenKeys, Field("name", r.name));
    VisibleFieldShown(r.fields, RepositoryHiddenKeys, Field("id", IntToString(r.id)));
  }

  /** The data the user-data command finds for `login`: that of the LAST
      user whose login is exactly `login` (the scan does not stop at a match
      and does not strip), or the empty text when no login is. */
  function UserDataFor(users: seq<User>, login: string): string {
    if users == [] then ""
    else
      var last := users[|users| - 1];
      if last.login == login then FieldData(last.fields, UserHiddenKeys)
      else UserDataFor(users[..|users| - 1], login)
  }

  /** The user the command reports is the last one with exactly that login. */
  lemma {:induction false} LastExactMatchWins(users: seq<User>, login: string, i: nat)
    requires i < |users| && users[i].login == login
    requires forall j :: i < j < |users| ==> users[j].login != login
    ensures UserDataFor(users, login) == FieldData(users[i].fields, UserHiddenKeys)
  {
    if i < |users| - 1 {
      var init := users[..|users| - 1];
      LastExactMatchWins(init, login, i);
    }
  }

  /** Without an exact match the command finds no data. */
  lemma {:induction false} NoExactMatchNoData(users: seq<User>, login: string)
    requires forall j :: 0 <= j < |users| ==> users[j].login != login
    ensures UserDataFor(users, login) == ""
  {
    if users != [] {
      NoExactMatchNoData(users[..|users| - 1], login);
    }
  }
}
