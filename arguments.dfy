/**
 * Argument handling of the create-repository command: the label colours and
 * version-control systems the hosting service accepts, the order in which the
 * arguments are checked, and the defaults that fill in omitted ones.
 */
module Arguments {
  import opened Sequences

  const LabelColors: seq<string> := ["white", "red", "orange", "yellow", "green", "blue", "pink", "grey"]
  const VersionControlSystems: seq<string> := ["svn", "git", "mercurial"]

  /** How the reply names argument positions 0 to 3. */
  const ArgumentLabels: seq<string> := ["Name", "Title", "Label-color", "Vcs"]

  const DefaultLabelColor: string := "white"
  const DefaultVcs: string := "git"

  predicate IsValidLabelColor(color: string) {
    color in LabelColors
  }

  predicate IsValidVcs(vcs: string) {
    vcs in VersionControlSystems
  }

  /** The outcome of checking the arguments: all good (Python's `True`), or
      the position of the offending argument. */
  datatype Validation = Valid | InvalidAt(index: nat)

  /** Argument `k` passes its own check: position 2 must be a label colour,
      position 3 a version-control system; no other position is checked. */
  predicate ArgumentOk(args: seq<string>, k: nat)
    requires k < |args|
  {
    if k == 2 then IsValidLabelColor(args[k])
    else if k == 3 then IsValidVcs(args[k])
    else true
  }

  /** Checks the colour, then the version-control system; reports the first
      argument that fails its check. */
  function ParseCreateRepositoryArguments(args: seq<string>): (r: Validation)
    ensures r == Valid <==> forall k :: 0 <= k < |args| ==> ArgumentOk(args, k)
    ensures r.InvalidAt? ==>
              r.index < |args| && !ArgumentOk(args, r.index) &&
              forall k :: 0 <= k < r.index ==> ArgumentOk(args, k)
  {
    if |args| > 2 && !IsValidLabelColor(args[2]) then
      assert !ArgumentOk(args, 2);
      InvalidAt(2)
    else if |args| > 3 && !IsValidVcs(args[3]) then
      assert !ArgumentOk(args, 3);
      InvalidAt(3)
    else Valid
  }

  /** The argument list after the command's defaults are appended: the title
      defaults to the name, the colour to white, the system to git; what was
      supplied stays as it was. */
  function PadArguments(args: seq<string>): (r: seq<string>)
    requires |args| >= 1
    ensures |r| == if |args| < 4 then 4 else |args|
    ensures r[..|args|] == args
    ensures |args| < 2 ==> r[1] == args[0]
    ensures |args| < 3 ==> r[2] == DefaultLabelColor
    ensures |args| < 4 ==> r[3] == DefaultVcs
  {
    var withTitle := if |args| < 2 then args + [args[0]] else args;
    var withColor := if |args| < 3 then withTitle + [DefaultLabelColor] else withTitle;
    if |args| < 4 then withColor + [DefaultVcs] else withColor
  }

  /** The defaults always pass their checks, so padding never changes the
      verdict: only arguments the caller supplied can be rejected. */
  lemma PaddingKeepsVerdict(args: seq<string>)
    requires |args| >= 1
    ensures ParseCreateRepositoryArguments(PadArguments(args)) == ParseCreateRepositoryArguments(args)
  {
    var padded := PadArguments(args);
    assert IsValidLabelColor(DefaultLabelColor) && IsValidVcs(DefaultVcs);
    if |args| > 2 {
      assert padded[2] == args[2];
    }
    if |args| > 3 {
      assert padded[3] == args[3];
    }
  }

  /** A call with only a name is always accepted, with all three defaults. */
  lemma NameOnlyIsAccepted(name: string)
    ensures PadArguments([name]) == [name, name, DefaultLabelColor, DefaultVcs]
    ensures ParseCreateRepositoryArguments(PadArguments([name])) == Valid
  {
    PaddingKeepsVerdict([name]);
  }

  /** What the command replies once the arguments are padded. */
  function CreateRepositoryReply(args: seq<string>): string
    requires |args| >= 4
  {
    match ParseCreateRepositoryArguments(args)
    case Valid =>
      "Creating repository\n" + ArgumentLabels[0] + ":" + args[0] + "\n" + ArgumentLabels[1] + ":" + args[1] + "\n"
      + ArgumentLabels[2] + ":" + args[2] + "\n" + ArgumentLabels[3] + ":" + args[3]
    case InvalidAt(i) => "'" + args[i] + "' is not a valid " + ArgumentLabels[i]
  }

  /** A bad colour is reported even when the system is bad too; a bad system
      only when the colour is good. */
  lemma ColorCheckedBeforeVcs(name: string, title: string, color: string, vcs: string)
    ensures !IsValidLabelColor(color) ==>
              ParseCreateRepositoryArguments([name, title, color, vcs]) == InvalidAt(2)
    ensures IsValidLabelColor(color) && !IsValidVcs(vcs) ==>
              ParseCreateRepositoryArguments([name, title, color, vcs]) == InvalidAt(3)
  {
    var args := [name, title, color, vcs];
    assert args[2] == color && args[3] == vcs;
  }

  /** A call whose colour is not one of the service's is refused with a
      reply naming that colour, whatever the system would have been. */
  lemma UnknownColorReply(name: string, title: string, color: string)
    requires !IsValidLabelColor(color)
    ensures CreateRepositoryReply(PadArguments([name, title, color])) == "'" + color + "' is not a valid Label-color"
  {
    var a := [name, title, color, DefaultVcs];
    assert PadArguments([name, title, color]) == a;
    ColorCheckedBeforeVcs(name, title, color, DefaultVcs);
    assert CreateRepositoryReply(a) == "'" + color + "' is not a valid " + "Label-color";
    Reassociate("'" + color, "' is not a valid ", "Label-color");
  }

  /** A call with a good colour but a system the service does not offer is
      refused with a reply naming that system. */
  lemma UnknownVcsReply(name: string, title: string, color: string, vcs: string)
    requires IsValidLabelColor(color) && !IsValidVcs(vcs)
    ensures CreateRepositoryReply(PadArguments([name, title, color, vcs])) == "'" + vcs + "' is not a valid Vcs"
  {
    var a := [name, title, color, vcs];
    assert PadArguments(a) == a;
    ColorCheckedBeforeVcs(name, title, color, vcs);
    assert CreateRepositoryReply(a) == "'" + vcs + "' is not a valid " + "Vcs";
    Reassociate("'" + vcs, "' is not a valid ", "Vcs");
  }
}
