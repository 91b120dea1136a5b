/**
 * The command registry kept by the settings tab: an ordered list of commands,
 * changed by the Add Command, Remove, Update and Reset buttons.
 */
module Registry {
  import opened Wrappers
  import opened Utf16
  import opened Seqs

  /** A named prompt template bound to a model and a temperature; model and temperature may be unset. */
  datatype Command = Command(name: Text, prompt: Text, model: Option<Text>, temperature: Option<real>)

  /** Why the Add Command button refused a command, in the order the checks run. */
  datatype AddError = EmptyName | DuplicateName | EmptyPrompt | EmptyModel

  /** A text field that JavaScript treats as false: unset or empty. */
  predicate Unset(o: Option<Text>) {
    o.None? || o.value == []
  }

  predicate HasName(cmds: seq<Command>, name: Text) {
    exists i :: 0 <= i < |cmds| && cmds[i].name == name
  }

  predicate UniqueNames(cmds: seq<Command>) {
    forall i, j :: 0 <= i < j < |cmds| ==> cmds[i].name != cmds[j].name
  }

  /** `cmds.find(c => c.name === name)`, as the index of the first match. */
  function FindByName(cmds: seq<Command>, name: Text): (r: Option<nat>)
    ensures r.Some? ==> r.value < |cmds| && cmds[r.value].name == name
    ensures r.Some? ==> forall k :: 0 <= k < r.value ==> cmds[k].name != name
    ensures r.None? <==> !HasName(cmds, name)
  {
    if cmds == [] then None
    else if cmds[0].name == name then Some(0)
    else match FindByName(cmds[1..], name)
      case None => None
      case Some(i) => Some(i + 1)
  }

  // ---------------------------------------------------------------------------
  // Add Command

  /**
   * The Add Command button: an empty name, a name already in the list, an
   * empty prompt and an unset model are refused in that order, and otherwise
   * the command is appended.
   */
  function Added(cmds: seq<Command>, c: Command): (r: Result<seq<Command>, AddError>)
    ensures r.Success? <==> c.name != [] && !HasName(cmds, c.name) && c.prompt != [] && !Unset(c.model)
    ensures r.Success? ==> r.value == cmds + [c]
    ensures r == Failure(EmptyName) <==> c.name == []
    ensures r == Failure(DuplicateName) <==> c.name != [] && HasName(cmds, c.name)
    ensures r == Failure(EmptyPrompt) <==> c.name != [] && !HasName(cmds, c.name) && c.prompt == []
  {
    if c.name == [] then Failure(EmptyName)
    else if FindByName(cmds, c.name).Some? then Failure(DuplicateName)
    else if c.prompt == [] then Failure(EmptyPrompt)
    else if Unset(c.model) then Failure(EmptyModel)
    else Success(cmds + [c])
  }

  /** A successful add keeps the names unique. */
  lemma AddedKeepsUnique(cmds: seq<Command>, c: Command)
    requires UniqueNames(cmds) && Added(cmds, c).Success?
    ensures UniqueNames(Added(cmds, c).value)
  {
    var r := cmds + [c];
    forall i, j | 0 <= i < j < |r| ensures r[i].name != r[j].name {
      if j == |cmds| {
        assert r[i] == cmds[i];
      }
    }
  }

  // ---------------------------------------------------------------------------
  // Remove

  /** The Remove button: `commands.filter(c => c.name !== name)`. */
  function Removed(cmds: seq<Command>, name: Text): (r: seq<Command>)
    ensures |r| <= |cmds|
    ensures !HasName(r, name)
    ensures forall c :: c in r <==> c in cmds && c.name != name
  {
    if cmds == [] then []
    else (if cmds[0].name == name then [] else [cmds[0]]) + Removed(cmds[1..], name)
  }

  /** Removing an absent name changes nothing. */
  lemma {:induction false} RemovedAbsent(cmds: seq<Command>, name: Text)
    requires !HasName(cmds, name)
    ensures Removed(cmds, name) == cmds
  {
    if cmds != [] {
      assert cmds[0].name != name;
      assert !HasName(cmds[1..], name) by {
        forall i | 0 <= i < |cmds| - 1 ensures cmds[1..][i].name != name {
          assert cmds[1..][i] == cmds[i + 1];
        }
      }
      RemovedAbsent(cmds[1..], name);
    }
  }

  /** Removing twice is removing once. */
  lemma RemovedIdempotent(cmds: seq<Command>, name: Text)
    ensures Removed(Removed(cmds, name), name) == Removed(cmds, name)
  {
    RemovedAbsent(Removed(cmds, name), name);
  }

  /** Removing keeps the names unique. */
  lemma {:induction false} RemovedKeepsUnique(cmds: seq<Command>, name: Text)
    requires UniqueNames(cmds)
    ensures UniqueNames(Removed(cmds, name))
  {
    if cmds != [] {
      var t := cmds[1..];
      assert UniqueNames(t) by {
        forall i, j | 0 <= i < j < |t| ensures t[i].name != t[j].name {
          assert t[i] == cmds[i + 1] && t[j] == cmds[j + 1];
        }
      }
      RemovedKeepsUnique(t, name);
      var rt := Removed(t, name);
      if cmds[0].name == name {
        assert Removed(cmds, name) == [] + rt;
        assert [] + rt == rt;
      } else {
        var r := [cmds[0]] + rt;
        assert Removed(cmds, name) == r;
        forall i, j | 0 <= i < j < |r| ensures r[i].name != r[j].name {
          assert r[j] == rt[j - 1] && r[j] in rt;
          if i == 0 {
            var k :| 0 <= k < |t| && t[k] == r[j];
            assert cmds[k + 1] == r[j];
          } else {
            assert r[i] == rt[i - 1];
          }
        }
      }
    }
  }

  /** Remove filters each part of a list on its own, so the kept commands stay in order. */
  lemma {:induction false} RemovedConcat(a: seq<Command>, b: seq<Command>, name: Text)
    ensures Removed(a + b, name) == Removed(a, name) + Removed(b, name)
  {
    if a == [] {
      assert a + b == b;
    } else {
      var ab := a + b;
      var h := if a[0].name == name then [] else [a[0]];
      assert ab[0] == a[0] && ab[1..] == a[1..] + b;
      assert Removed(ab, name) == h + Removed(a[1..] + b, name);
      RemovedConcat(a[1..], b, name);
      AppendAssoc(h, Removed(a[1..], name), Removed(b, name));
    }
  }

  /** Removing the name of a command just added gives back the list before the add. */
  lemma RemoveUndoesAdd(cmds: seq<Command>, c: Command)
    requires Added(cmds, c).Success?
    ensures Removed(Added(cmds, c).value, c.name) == cmds
  {
    RemovedConcat(cmds, [c], c.name);
    RemovedAbsent(cmds, c.name);
    assert Removed([c], c.name) == [] by {
      assert [c][1..] == [];
    }
  }

  // ---------------------------------------------------------------------------
  // Update (merge the defaults) and Reset

  /** A command with the prompt, model and temperature of `d`, and its own name. */
  function Overwritten(c: Command, d: Command): Command {
    c.(prompt := d.prompt, model := d.model, temperature := d.temperature)
  }

  /** One step of the Update button: overwrite the first command named like `d`, or append `d`. */
  function MergeOne(cmds: seq<Command>, d: Command): seq<Command> {
    match FindByName(cmds, d.name)
    case Some(i) => cmds[i := Overwritten(cmds[i], d)]
    case None => cmds + [d]
  }

  /** The Update button: `defaults.forEach` of `MergeOne`. */
  function Merged(cmds: seq<Command>, defaults: seq<Command>): seq<Command>
    decreases |defaults|
  {
    if defaults == [] then cmds else Merged(MergeOne(cmds, defaults[0]), defaults[1..])
  }

  /** The defaults whose name is not in `cmds`, in their order. */
  function Absent(cmds: seq<Command>, defaults: seq<Command>): (r: seq<Command>)
    ensures forall k :: 0 <= k < |r| ==> r[k] in defaults && !HasName(cmds, r[k].name)
  {
    if defaults == [] then []
    else (if HasName(cmds, defaults[0].name) then [] else [defaults[0]]) + Absent(cmds, defaults[1..])
  }

  /** The first default named `name`, if any. */
  function Lookup(defaults: seq<Command>, name: Text): Option<Command> {
    match FindByName(defaults, name)
    case Some(j) => Some(defaults[j])
    case None => None
  }

  /** `r` starts with commands named like those of `cmds`, in the same order. */
  predicate NamesPrefix(cmds: seq<Command>, r: seq<Command>) {
    |cmds| <= |r| && forall i :: 0 <= i < |cmds| ==> r[i].name == cmds[i].name
  }

  /** The first command named `d.name` in `cmds` has `d`'s prompt, model and temperature. */
  predicate Carries(cmds: seq<Command>, d: Command) {
    match FindByName(cmds, d.name)
    case Some(j) => Overwritten(cmds[j], d) == cmds[j]
    case None => false
  }

  /** Extending a list without renaming its commands keeps where each present name is first found. */
  lemma FindInPrefix(cmds: seq<Command>, r: seq<Command>, name: Text)
    requires NamesPrefix(cmds, r) && HasName(cmds, name)
    ensures FindByName(r, name) == FindByName(cmds, name)
  {
    var j := FindByName(cmds, name).value;
    assert r[j].name == name;
    var k := FindByName(r, name).value;
    assert k <= j;
    assert cmds[k].name == r[k].name;
    assert j <= k;
  }

  lemma MergeOneKeeps(cmds: seq<Command>, d: Command)
    ensures NamesPrefix(cmds, MergeOne(cmds, d))
    ensures forall i :: 0 <= i < |cmds| && cmds[i].name != d.name ==> MergeOne(cmds, d)[i] == cmds[i]
    ensures Carries(MergeOne(cmds, d), d)
    ensures |MergeOne(cmds, d)| == |cmds| + (if HasName(cmds, d.name) then 0 else 1)
    ensures !HasName(cmds, d.name) ==> MergeOne(cmds, d) == cmds + [d]
  {
    FindInPrefixOrAppended(cmds, d);
  }

  lemma FindInPrefixOrAppended(cmds: seq<Command>, d: Command)
    ensures Carries(MergeOne(cmds, d), d)
  {
    var r := MergeOne(cmds, d);
    match FindByName(cmds, d.name)
    case Some(i) =>
      assert NamesPrefix(cmds, r);
      FindInPrefix(cmds, r, d.name);
    case None =>
      assert r[|cmds|] == d;
      var f := FindByName(r, d.name);
      assert f.Some?;
  }

  /**
   * Update never deletes and never renames a command, and leaves untouched every
   * command whose name no default has.
   */
  lemma {:induction false} MergedKeeps(cmds: seq<Command>, defaults: seq<Command>)
    ensures NamesPrefix(cmds, Merged(cmds, defaults))
    ensures forall i :: 0 <= i < |cmds| && !HasName(defaults, cmds[i].name) ==> Merged(cmds, defaults)[i] == cmds[i]
    decreases |defaults|
  {
    if defaults != [] {
      var d := defaults[0];
      var c1 := MergeOne(cmds, d);
      MergeOneKeeps(cmds, d);
      MergedKeeps(c1, defaults[1..]);
      forall i | 0 <= i < |cmds| && !HasName(defaults, cmds[i].name)
        ensures Merged(cmds, defaults)[i] == cmds[i]
      {
        assert cmds[i].name != d.name;
        assert !HasName(defaults[1..], cmds[i].name) by {
          forall k | 0 <= k < |defaults| - 1 ensures defaults[1..][k].name != cmds[i].name {
            assert defaults[1..][k] == defaults[k + 1];
          }
        }
      }
    }
  }

  /** With distinct default names, no later default shares the first one's name. */
  lemma RestLacksFirst(defaults: seq<Command>)
    requires UniqueNames(defaults) && defaults != []
    ensures !HasName(defaults[1..], defaults[0].name)
    ensures UniqueNames(defaults[1..])
  {
    forall k | 0 <= k < |defaults| - 1 ensures defaults[1..][k].name != defaults[0].name {
      assert defaults[1..][k] == defaults[k + 1];
    }
  }

  /** Update makes every default name present, the first command of each name carrying that default. */
  lemma {:induction false} MergedCovers(cmds: seq<Command>, defaults: seq<Command>)
    requires UniqueNames(defaults)
    ensures forall k :: 0 <= k < |defaults| ==> Carries(Merged(cmds, defaults), defaults[k])
    decreases |defaults|
  {
    if defaults != [] {
      var d := defaults[0];
      var c1 := MergeOne(cmds, d);
      var m := Merged(cmds, defaults);
      assert m == Merged(c1, defaults[1..]);
      RestLacksFirst(defaults);
      MergedCovers(c1, defaults[1..]);
      MergeOneKeeps(cmds, d);
      MergedKeeps(c1, defaults[1..]);
      var j := FindByName(c1, d.name).value;
      FindInPrefix(c1, m, d.name);
      assert m[j] == c1[j];
      forall k | 0 <= k < |defaults| ensures Carries(m, defaults[k]) {
        if k > 0 {
          assert defaults[k] == defaults[1..][k - 1];
        }
      }
    }
  }

  /**
   * Pointwise, with distinct default names: Update overwrites a command exactly
   * when it is the first of its name and some default has that name.
   */
  lemma {:induction false} MergedAt(cmds: seq<Command>, defaults: seq<Command>, i: nat)
    requires UniqueNames(defaults) && i < |cmds|
    ensures i < |Merged(cmds, defaults)|
    ensures var n := cmds[i].name;
      Merged(cmds, defaults)[i] ==
        match (if FindByName(cmds, n) == Some(i) then Lookup(defaults, n) else None)
        case Some(d) => Overwritten(cmds[i], d)
        case None => cmds[i]
    decreases |defaults|
  {
    MergedKeeps(cmds, defaults);
    var n := cmds[i].name;
    if defaults == [] {
      assert Lookup(defaults, n) == None;
    } else {
      var d := defaults[0];
      var c1 := MergeOne(cmds, d);
      RestLacksFirst(defaults);
      MergeOneKeeps(cmds, d);
      MergedAt(c1, defaults[1..], i);
      FindInPrefix(cmds, c1, n);
      if n == d.name {
        assert Lookup(defaults, n) == Some(d);
        assert Lookup(defaults[1..], n) == None;
        if FindByName(cmds, n) == Some(i) {
          assert c1[i] == Overwritten(cmds[i], d);
        } else {
          assert c1[i] == cmds[i];
        }
      } else {
        assert c1[i] == cmds[i];
        assert Lookup(defaults, n) == Lookup(defaults[1..], n);
      }
    }
  }

  /**
   * With distinct default names, Update appends exactly the defaults whose name
   * was absent, in their order, so the list grows by their number.
   */
  lemma {:induction false} MergedTail(cmds: seq<Command>, defaults: seq<Command>)
    requires UniqueNames(defaults)
    ensures |Merged(cmds, defaults)| == |cmds| + |Absent(cmds, defaults)|
    ensures Merged(cmds, defaults)[|cmds|..] == Absent(cmds, defaults)
    decreases |defaults|
  {
    if defaults != [] {
      var d := defaults[0];
      var rest := defaults[1..];
      var c1 := MergeOne(cmds, d);
      var m := Merged(cmds, defaults);
      RestLacksFirst(defaults);
      MergeOneKeeps(cmds, d);
      MergedTail(c1, rest);
      assert m == Merged(c1, rest);
      if HasName(cmds, d.name) {
        AbsentSameNames(cmds, c1, rest);
        assert Absent(cmds, defaults) == [] + Absent(cmds, rest);
        TailKept(cmds, m, Absent(c1, rest), Absent(cmds, defaults), |cmds|);
      } else {
        assert c1 == cmds + [d];
        AbsentAfterAppend(cmds, d, rest);
        MergedKeeps(c1, rest);
        assert m[|cmds|] == c1[|cmds|] == d;
        assert Absent(cmds, defaults) == [d] + Absent(cmds, rest);
        TailGrown(m, d, Absent(c1, rest), Absent(cmds, defaults), |cmds|);
      }
    }
  }

  lemma TailKept<T>(cmds: seq<T>, m: seq<T>, tail: seq<T>, a: seq<T>, n: nat)
    requires n == |cmds| && |m| == n + |tail| && m[n..] == tail && a == [] + tail
    ensures |m| == |cmds| + |a| && m[|cmds|..] == a
  {
  }

  lemma TailGrown<T>(m: seq<T>, d: T, tail: seq<T>, a: seq<T>, n: nat)
    requires |m| == n + 1 + |tail| && m[n + 1..] == tail && m[n] == d && a == [d] + tail
    ensures |m| == n + |a| && m[n..] == a
  {
    assert m[n..] == [m[n]] + m[n + 1..];
  }

  /** Two lists with the same names, position by position, miss the same defaults. */
  lemma {:induction false} AbsentSameNames(a: seq<Command>, b: seq<Command>, defaults: seq<Command>)
    requires |a| == |b| && NamesPrefix(a, b)
    ensures Absent(a, defaults) == Absent(b, defaults)
    decreases |defaults|
  {
    if defaults != [] {
      var n := defaults[0].name;
      if HasName(a, n) {
        var i :| 0 <= i < |a| && a[i].name == n;
        assert b[i].name == n;
      }
      if HasName(b, n) {
        var i :| 0 <= i < |b| && b[i].name == n;
        assert a[i].name == n;
      }
      AbsentSameNames(a, b, defaults[1..]);
    }
  }

  /** Appending `d` does not change which of the later defaults are missing, when none is named like `d`. */
  lemma {:induction false} AbsentAfterAppend(cmds: seq<Command>, d: Command, defaults: seq<Command>)
    requires !HasName(defaults, d.name)
    ensures Absent(cmds + [d], defaults) == Absent(cmds, defaults)
    decreases |defaults|
  {
    if defaults != [] {
      var n := defaults[0].name;
      assert n != d.name;
      if HasName(cmds + [d], n) {
        var i :| 0 <= i < |cmds| + 1 && (cmds + [d])[i].name == n;
        assert (cmds + [d])[i] == cmds[i];
      }
      if HasName(cmds, n) {
        var i :| 0 <= i < |cmds| && cmds[i].name == n;
        assert (cmds + [d])[i] == cmds[i];
      }
      assert !HasName(defaults[1..], d.name) by {
        forall k | 0 <= k < |defaults| - 1 ensures defaults[1..][k].name != d.name {
          assert defaults[1..][k] == defaults[k + 1];
        }
      }
      AbsentAfterAppend(cmds, d, defaults[1..]);
    }
  }

  /** No default is missing from a list that carries every default. */
  lemma {:induction false} AbsentNone(cmds: seq<Command>, defaults: seq<Command>)
    requires forall k :: 0 <= k < |defaults| ==> HasName(cmds, defaults[k].name)
    ensures Absent(cmds, defaults) == []
    decreases |defaults|
  {
    if defaults != [] {
      assert HasName(cmds, defaults[0].name);
      forall k | 0 <= k < |defaults| - 1 ensures HasName(cmds, defaults[1..][k].name) {
        assert defaults[1..][k] == defaults[k + 1];
      }
      AbsentNone(cmds, defaults[1..]);
    }
  }

  /** With distinct default names, pressing Update twice is pressing it once. */
  lemma MergedIdempotent(cmds: seq<Command>, defaults: seq<Command>)
    requires UniqueNames(defaults)
    ensures Merged(Merged(cmds, defaults), defaults) == Merged(cmds, defaults)
  {
    var m := Merged(cmds, defaults);
    var m2 := Merged(m, defaults);
    MergedCovers(cmds, defaults);
    assert forall k :: 0 <= k < |defaults| ==> HasName(m, defaults[k].name) by {
      forall k | 0 <= k < |defaults| ensures HasName(m, defaults[k].name) {
        assert Carries(m, defaults[k]);
      }
    }
    AbsentNone(m, defaults);
    MergedTail(m, defaults);
    forall i | 0 <= i < |m| ensures m2[i] == m[i] {
      MergedAt(m, defaults, i);
      var n := m[i].name;
      if FindByName(m, n) == Some(i) && Lookup(defaults, n).Some? {
        var j := FindByName(defaults, n).value;
        assert Carries(m, defaults[j]);
      }
    }
  }

  /** With distinct default names, Update right after Reset changes nothing. */
  lemma UpdateAfterReset(defaults: seq<Command>)
    requires UniqueNames(defaults)
    ensures Merged(defaults, defaults) == defaults
  {
    var m := Merged(defaults, defaults);
    assert forall k :: 0 <= k < |defaults| ==> HasName(defaults, defaults[k].name);
    AbsentNone(defaults, defaults);
    MergedTail(defaults, defaults);
    forall i | 0 <= i < |defaults| ensures m[i] == defaults[i] {
      MergedAt(defaults, defaults, i);
      var f := FindByName(defaults, defaults[i].name);
      assert f == Some(i);
    }
  }

  /** Update keeps command names unique when they were, given distinct default names. */
  lemma MergedKeepsUnique(cmds: seq<Command>, defaults: seq<Command>)
    requires UniqueNames(cmds) && UniqueNames(defaults)
    ensures UniqueNames(Merged(cmds, defaults))
  {
    var m := Merged(cmds, defaults);
    var tail := Absent(cmds, defaults);
    MergedKeeps(cmds, defaults);
    MergedTail(cmds, defaults);
    AbsentUnique(cmds, defaults);
    forall i, j | 0 <= i < j < |m| ensures m[i].name != m[j].name {
      if j >= |cmds| {
        assert m[j] == tail[j - |cmds|];
        if i >= |cmds| {
          assert m[i] == tail[i - |cmds|];
        } else {
          assert m[i].name == cmds[i].name;
        }
      }
    }
  }

  /** The missing defaults of a list with distinct names have distinct names. */
  lemma {:induction false} AbsentUnique(cmds: seq<Command>, defaults: seq<Command>)
    requires UniqueNames(defaults)
    ensures UniqueNames(Absent(cmds, defaults))
    decreases |defaults|
  {
    if defaults != [] {
      var rest := Absent(cmds, defaults[1..]);
      RestLacksFirst(defaults);
      AbsentUnique(cmds, defaults[1..]);
      var r := Absent(cmds, defaults);
      if !HasName(cmds, defaults[0].name) {
        assert r == [defaults[0]] + rest;
        forall j | 0 < j < |r| ensures r[0].name != r[j].name {
          assert r[j] == rest[j - 1];
          assert rest[j - 1] in defaults[1..];
        }
      }
    }
  }

  // ---------------------------------------------------------------------------
  // The settings object the buttons change in place

  class Settings {
    var ollamaUrl: Text
    var defaultModel: Text
    var commands: seq<Command>

    constructor (ollamaUrl: Text, defaultModel: Text, commands: seq<Command>)
      ensures this.ollamaUrl == ollamaUrl && this.defaultModel == defaultModel && this.commands == commands
    {
      this.ollamaUrl := ollamaUrl;
      this.defaultModel := defaultModel;
      this.commands := commands;
    }

    /** The Add Command button; `error` is the notice shown instead of adding. */
    method AddCommand(c: Command) returns (error: Option<AddError>)
      modifies this`commands
      ensures Added(old(commands), c).Success? ==> error == None && commands == Added(old(commands), c).value
      ensures Added(old(commands), c).Failure? ==> error == Some(Added(old(commands), c).error) && commands == old(commands)
    {
      if c.name == [] {
        return Some(EmptyName);
      }
      if FindByName(commands, c.name).Some? {
        return Some(DuplicateName);
      }
      if c.prompt == [] {
        return Some(EmptyPrompt);
      }
      if Unset(c.model) {
        return Some(EmptyModel);
      }
      commands := commands + [c];
      return None;
    }

    /** The Remove button of the command named `name`. */
    method RemoveCommand(name: Text)
      modifies this`commands
      ensures commands == Removed(old(commands), name)
    {
      commands := Removed(commands, name);
    }

    /** The Update button: merge the built-in defaults into the list, in place. */
    method UpdateCommands(defaults: seq<Command>)
      modifies this`commands
      ensures commands == Merged(old(commands), defaults)
    {
      var k := 0;
      while k < |defaults|
        invariant 0 <= k <= |defaults|
        invariant Merged(commands, defaults[k..]) == Merged(old(commands), defaults)
      {
        var d := defaults[k];
        assert defaults[k..][1..] == defaults[k + 1..];
        match FindByName(commands, d.name) {
          case Some(i) =>
            commands := commands[i := Overwritten(commands[i], d)];
          case None =>
            commands := commands + [d];
        }
        k := k + 1;
      }
      assert defaults[k..] == [];
    }

    /** The Reset button: the list becomes the built-in defaults. */
    method ResetCommands(defaults: seq<Command>)
      modifies this`commands
      ensures commands == defaults
    {
      commands := defaults;
    }
  }
}
