/**
 * The tool registry: built from a list of enabled tool names, keeping the
 * known ones in order, and looked up by name.
 */
module Registry {
  import opened Wrappers

  datatype ToolKind = Read | Bash | Edit | Write | Grep | Find | Ls

  /** The name each tool reports. */
  function Name(k: ToolKind): string
  {
    match k
    case Read => "read"
    case Bash => "bash"
    case Edit => "edit"
    case Write => "write"
    case Grep => "grep"
    case Find => "find"
    case Ls => "ls"
  }

  /** The tool an enabled name selects, if any. */
  function KindOf(name: string): (r: Option<ToolKind>)
    ensures r.Some? ==> Name(r.value) == name
    ensures r.None? ==> forall k: ToolKind :: Name(k) != name
  {
    match name
    case "read" => Some(Read)
    case "bash" => Some(Bash)
    case "edit" => Some(Edit)
    case "write" => Some(Write)
    case "grep" => Some(Grep)
    case "find" => Some(Find)
    case "ls" => Some(Ls)
    case _ => None
  }

  /** The tools that `ToolRegistry::new` builds, in the order of the names. */
  function Recognised(enabled: seq<string>): seq<ToolKind>
  {
    if enabled == [] then []
    else
      var last := KindOf(enabled[|enabled| - 1]);
      Recognised(enabled[..|enabled| - 1]) + (if last.Some? then [last.value] else [])
  }

  /** The first tool with the given name. */
  function FirstNamed(tools: seq<ToolKind>, name: string): Option<ToolKind>
  {
    if tools == [] then None
    else if Name(tools[0]) == name then Some(tools[0])
    else FirstNamed(tools[1..], name)
  }

  class ToolRegistry {
    var tools: seq<ToolKind>

    /** `ToolRegistry::new`: one tool per known enabled name; unknown names are skipped. */
    constructor(enabled: seq<string>)
      ensures tools == Recognised(enabled)
    {
      var built: seq<ToolKind> := [];
      var i := 0;
      while i < |enabled|
        invariant 0 <= i <= |enabled|
        invariant built == Recognised(enabled[..i])
      {
        assert enabled[..i + 1][..i] == enabled[..i];
        match enabled[i] {
          case "read" => built := built + [Read];
          case "bash" => built := built + [Bash];
          case "edit" => built := built + [Edit];
          case "write" => built := built + [Write];
          case "grep" => built := built + [Grep];
          case "find" => built := built + [Find];
          case "ls" => built := built + [Ls];
          case _ =>
        }
        i := i + 1;
      }
      assert enabled[..i] == enabled;
      tools := built;
    }

    /** `get`: the first registered tool with that name. */
    method Get(name: string) returns (r: Option<ToolKind>)
      ensures r == FirstNamed(tools, name)
    {
      var i := 0;
      while i < |tools|
        invariant 0 <= i <= |tools|
        invariant FirstNamed(tools, name) == FirstNamed(tools[i..], name)
      {
        assert tools[i..][1..] == tools[i + 1..];
        if Name(tools[i]) == name {
          return Some(tools[i]);
        }
        i := i + 1;
      }
      assert tools[i..] == [];
      return None;
    }
  }

  /** `FirstNamed` finds a tool of that name exactly when one is registered. */
  lemma {:induction false} FirstNamedFinds(tools: seq<ToolKind>, name: string)
    ensures FirstNamed(tools, name).Some? <==> exists i :: 0 <= i < |tools| && Name(tools[i]) == name
    ensures FirstNamed(tools, name).Some? ==> Name(FirstNamed(tools, name).value) == name
    decreases |tools|
  {
    if tools != [] {
      FirstNamedFinds(tools[1..], name);
      if Name(tools[0]) != name && exists i :: 0 <= i < |tools| && Name(tools[i]) == name {
        var i :| 0 <= i < |tools| && Name(tools[i]) == name;
        assert tools[1..][i - 1] == tools[i];
      }
    }
  }

  /** Every registered tool comes from an enabled name, and every enabled known name is registered. */
  lemma {:induction false} RecognisedExactly(enabled: seq<string>, k: ToolKind)
    ensures k in Recognised(enabled) <==> Name(k) in enabled
    decreases |enabled|
  {
    if enabled != [] {
      var init := enabled[..|enabled| - 1];
      RecognisedExactly(init, k);
      assert enabled == init + [enabled[|enabled| - 1]];
    }
  }

  /**
   * Looking a name up in a registry built from `enabled` finds its tool
   * exactly when the name is a known tool name among the enabled ones.
   */
  lemma RegistryLookup(enabled: seq<string>, name: string)
    ensures var r := FirstNamed(Recognised(enabled), name);
            (r.Some? <==> KindOf(name).Some? && name in enabled)
            && (r.Some? ==> r == KindOf(name))
  {
    var tools := Recognised(enabled);
    FirstNamedFinds(tools, name);
    var r := FirstNamed(tools, name);
    if KindOf(name).Some? {
      RecognisedExactly(enabled, KindOf(name).value);
    }
    if r.Some? {
      var k := r.value;
      RecognisedExactly(enabled, k);
      assert KindOf(name) == Some(k) by {
        match k {
          case Read => case Bash => case Edit => case Write =>
          case Grep => case Find => case Ls =>
        }
      }
    }
  }
}
