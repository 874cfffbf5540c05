/** `CopyEditListener.on_text_command` (copy_edit.py:103-106): the editor's
    own cut, copy and paste commands are redirected to this plugin's
    commands; every other command goes through untouched. */
module Listener {
  import opened Optional

  /** The commands the listener intercepts. */
  predicate Intercepted(name: string) {
    name == "cut" || name == "copy" || name == "paste"
  }

  /** The replacement command and its arguments, or `None` to let the
      editor run the command it was given. */
  function OnTextCommand<A>(name: string, args: A): (r: Option<(string, A)>)
    ensures r.Some? <==> Intercepted(name)
    ensures r.Some? ==> r.value.1 == args && |r.value.0| == |name| + 5
  {
    if Intercepted(name) then Some((name + "_edit", args)) else None
  }

  /** Exactly the three clipboard commands are redirected, each to its
      `_edit` counterpart with the same arguments. */
  lemma OnTextCommandCases<A>(name: string, args: A)
    ensures OnTextCommand(name, args).Some? <==> name in {"cut", "copy", "paste"}
    ensures name == "cut" ==> OnTextCommand(name, args) == Some(("cut_edit", args))
    ensures name == "copy" ==> OnTextCommand(name, args) == Some(("copy_edit", args))
    ensures name == "paste" ==> OnTextCommand(name, args) == Some(("paste_edit", args))
  {
    assert "cut" + "_edit" == "cut_edit";
    assert "copy" + "_edit" == "copy_edit";
    assert "paste" + "_edit" == "paste_edit";
  }

  /** The redirection loses nothing: the original name is the new one with
      its `_edit` suffix removed. */
  lemma OnTextCommandInverse<A>(name: string, args: A)
    requires OnTextCommand(name, args).Some?
    ensures var (target, a) := OnTextCommand(name, args).value;
            a == args && |target| >= 5 && target[..|target| - 5] == name && target[|target| - 5..] == "_edit"
  {
    var target := name + "_edit";
    assert target[..|target| - 5] == name;
  }

  /** A redirected command is not redirected again: the listener never sends
      the editor round in a loop. */
  lemma OnTextCommandSettles<A>(name: string, args: A)
    requires OnTextCommand(name, args).Some?
    ensures OnTextCommand(OnTextCommand(name, args).value.0, args).None?
  {
    var target := name + "_edit";
    assert |target| > 5;
    assert target[|target| - 5] == '_';
  }
}
