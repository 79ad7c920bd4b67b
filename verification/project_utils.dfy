/** `ProjectUtils`: the target framework of a project. The project file is read and
    parsed by the caller; here the input is the project's name, whether it has a file
    path, and the text of every element of each framework property across the
    project's property groups. */
module ProjectUtils {
  import opened Wrappers
  import opened Linq
  import opened StringOps

  /** A project loaded as one target of a multi-targeting project is named
      `Name(tfm)`: the framework is the text between the last `(` before the final
      character and that final `)`. */
  function TargetFrameworkIfMultitargeting(name: string): (r: Option<string>)
    ensures r.Some? <==> |name| >= 3 && name[|name| - 1] == ')' && '(' in name[..|name| - 1]
    ensures r.Some? ==> |r.value| + 2 <= |name| && '(' !in r.value
    ensures r.Some? ==> name == name[..|name| - |r.value| - 2] + "(" + r.value + ")"
  {
    if |name| >= 3 && name[|name| - 1] == ')' then
      match LastIndexOfFrom(name, '(', |name| - 2)
      case None => None
      case Some(index) =>
        var tfm := name[index + 1..|name| - 1];
        assert name == name[..index] + "(" + tfm + ")";
        Some(tfm)
    else None
  }

  /** The converse: a name ending in a parenthesised text with no `(` in it gives that
      text. */
  lemma MultitargetingRoundTrip(prefix: string, tfm: string)
    requires '(' !in tfm && |prefix| + |tfm| >= 1
    ensures TargetFrameworkIfMultitargeting(prefix + "(" + tfm + ")") == Some(tfm)
  {
    var name := prefix + "(" + tfm + ")";
    assert name[|prefix|] == '(';
    assert name[..|name| - 1][|prefix|] == '(';
    var r := TargetFrameworkIfMultitargeting(name);
    var index := LastIndexOfFrom(name, '(', |name| - 2).value;
    assert name[|prefix| + 1..|name| - 1] == tfm;
    assert index == |prefix|;
  }

  /** The framework properties, each as the values of all its elements. */
  datatype Properties = Properties(
    targetFramework: seq<string>,
    targetFrameworks: seq<string>,
    targetFrameworkVersion: seq<string>,
    targetFrameworkIdentifier: seq<string>)

  datatype Property = TargetFrameworkProperty | TargetFrameworksProperty | VersionProperty | IdentifierProperty

  /** The exceptions `GetTargetFrameworkAsync` throws. */
  datatype ProjectError =
    | NoFilePath
    | MoreThanOneElement(property: Property)
    | SeveralFrameworks
    | NotNetFramework
    | NoFrameworkProperty

  /** `SingleOrDefault()?.Value`: nothing for no element, the value of the only one,
      and a failure for more. */
  function SingleOrDefault(values: seq<string>, property: Property): (r: Result<Option<string>, ProjectError>)
    ensures r.Err? <==> |values| > 1
    ensures r.Err? ==> r.error == MoreThanOneElement(property)
    ensures r.Ok? ==> (r.value.Some? <==> |values| == 1)
    ensures r.Ok? && r.value.Some? ==> r.value.value == values[0]
  {
    if |values| > 1 then Err(MoreThanOneElement(property))
    else if |values| == 1 then Ok(Some(values[0]))
    else Ok(None)
  }

  /** A `TargetFrameworkVersion` value as a framework moniker: one leading `v` or `V`
      dropped, every dot dropped, `net` in front. */
  function VersionMoniker(version: string): (r: string)
    ensures |r| >= 3
    ensures r[..3] == "net" && '.' !in r[3..]
  {
    var digits := if |version| >= 1 && version[0] in "vV" then version[1..] else version;
    var r := "net" + RemoveChar(digits, '.');
    assert r[3..] == RemoveChar(digits, '.');
    r
  }

  /** `.` joining the parts. */
  function JoinDots(parts: seq<string>): string {
    if parts == [] then "" else if |parts| == 1 then parts[0] else parts[0] + "." + JoinDots(parts[1..])
  }

  lemma {:induction false} RemoveDotsOfJoin(parts: seq<string>)
    requires forall i :: 0 <= i < |parts| ==> '.' !in parts[i]
    ensures RemoveChar(JoinDots(parts), '.') == Flatten(parts)
    decreases |parts|
  {
    if |parts| == 1 {
      RemoveCharAbsent(parts[0], '.');
      assert Flatten(parts) == parts[0] + Flatten([]);
    } else if |parts| > 1 {
      RemoveDotsOfJoin(parts[1..]);
      RemoveDotStep(parts[0], JoinDots(parts[1..]));
    }
  }

  lemma RemoveDotStep(part: string, rest: string)
    requires '.' !in part
    ensures RemoveChar(part + "." + rest, '.') == part + RemoveChar(rest, '.')
  {
    var dot := ".";
    RemoveCharAppend(part + dot, rest, '.');
    RemoveCharAppend(part, dot, '.');
    RemoveCharAbsent(part, '.');
    assert RemoveChar(dot, '.') == [];
    assert RemoveChar(part + dot, '.') == part;
  }

  /** A version `v` + dotted numbers gives `net` + the numbers run together. */
  lemma VersionMonikerOf(v: char, parts: seq<string>)
    requires v in "vV"
    requires forall i :: 0 <= i < |parts| ==> '.' !in parts[i]
    ensures VersionMoniker([v] + JoinDots(parts)) == "net" + Flatten(parts)
  {
    var version := [v] + JoinDots(parts);
    assert version[0] == v;
    assert version[1..] == JoinDots(parts);
    RemoveDotsOfJoin(parts);
  }

  /** For example, `v4.7.2` gives `net472`. */
  lemma VersionMonikerExample()
    ensures VersionMoniker("v4.7.2") == "net472"
  {
    var parts := ["4", "7", "2"];
    ExampleParts();
    VersionMonikerOf('v', parts);
  }

  lemma ExampleParts()
    ensures "v4.7.2" == ['v'] + JoinDots(["4", "7", "2"])
    ensures Flatten(["4", "7", "2"]) == "472"
  {
    var parts := ["4", "7", "2"];
    assert JoinDots(parts[2..]) == "2";
    assert JoinDots(parts[1..]) == "7.2";
    assert Flatten(parts) == "4" + Flatten(parts[1..]);
    assert Flatten(parts[1..]) == "7" + Flatten(parts[2..]);
    assert Flatten(parts[2..]) == "2" + Flatten(parts[3..]);
  }

  /** `GetTargetFrameworkAsync`: the multi-targeting name first; then, from the project
      file, a single `TargetFramework`, a single `TargetFrameworks` naming one
      framework, and a single `TargetFrameworkVersion` of .NET Framework. */
  function TargetFramework(name: string, hasFilePath: bool, props: Properties): (r: Result<string, ProjectError>)
    ensures TargetFrameworkIfMultitargeting(name).Some? ==> r == Ok(TargetFrameworkIfMultitargeting(name).value)
    ensures TargetFrameworkIfMultitargeting(name).None? && !hasFilePath ==> r == Err(NoFilePath)
  {
    match TargetFrameworkIfMultitargeting(name)
    case Some(tfm) => Ok(tfm)
    case None =>
      if !hasFilePath then Err(NoFilePath)
      else
        var single :- SingleOrDefault(props.targetFramework, TargetFrameworkProperty);
        if single.Some? then Ok(single.value)
        else
          var multiple :- SingleOrDefault(props.targetFrameworks, TargetFrameworksProperty);
          if multiple.Some? then
            if ';' in multiple.value then Err(SeveralFrameworks) else Ok(multiple.value)
          else
            var version :- SingleOrDefault(props.targetFrameworkVersion, VersionProperty);
            if version.Some? then
              var identifier :- SingleOrDefault(props.targetFrameworkIdentifier, IdentifierProperty);
              if identifier.Some? && identifier.value != ".NETFramework" then Err(NotNetFramework)
              else Ok(VersionMoniker(version.value))
            else Err(NoFrameworkProperty)
  }

  /** The precedence of the project file's properties: a single `TargetFramework` wins
      over everything after it; `TargetFrameworks` is used only without it and must not
      list several; `TargetFrameworkVersion` only without both, and only for .NET
      Framework. */
  lemma Precedence(name: string, props: Properties)
    requires TargetFrameworkIfMultitargeting(name).None?
    ensures |props.targetFramework| == 1 ==> TargetFramework(name, true, props) == Ok(props.targetFramework[0])
    ensures props.targetFramework == [] && |props.targetFrameworks| == 1 ==>
              TargetFramework(name, true, props) ==
                (if ';' in props.targetFrameworks[0] then Err(SeveralFrameworks) else Ok(props.targetFrameworks[0]))
    ensures props.targetFramework == [] && props.targetFrameworks == [] && |props.targetFrameworkVersion| == 1
              && (props.targetFrameworkIdentifier == [] || props.targetFrameworkIdentifier == [".NETFramework"]) ==>
              TargetFramework(name, true, props) == Ok(VersionMoniker(props.targetFrameworkVersion[0]))
  {
  }

  /** The failures: no property at all; more than one element of a property that is
      read; an identifier other than .NET Framework beside a version. */
  lemma Failures(name: string, props: Properties)
    requires TargetFrameworkIfMultitargeting(name).None?
    ensures props.targetFramework == [] && props.targetFrameworks == [] && props.targetFrameworkVersion == [] ==>
              TargetFramework(name, true, props) == Err(NoFrameworkProperty)
    ensures |props.targetFramework| > 1 ==>
              TargetFramework(name, true, props) == Err(MoreThanOneElement(TargetFrameworkProperty))
    ensures props.targetFramework == [] && props.targetFrameworks == [] && |props.targetFrameworkVersion| == 1
              && |props.targetFrameworkIdentifier| == 1 && props.targetFrameworkIdentifier[0] != ".NETFramework" ==>
              TargetFramework(name, true, props) == Err(NotNetFramework)
  {
  }
}
