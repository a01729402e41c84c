/// The command registry of include/CLI++/CLI++.hpp: `CLICommand` with its
/// option records and orderings, and the `CLI` map from command names to
/// commands that `insertCommand` and `take` update in place.
module Interactive {
  import opened Detail

  // ---------------------------------------------------------------------------
  // `std::string` ordering
  // ---------------------------------------------------------------------------

  /// `std::string::operator<`: the first differing character decides, and a
  /// proper prefix comes before the longer string.
  predicate StrLess(a: string, b: string)
    decreases |a|
  {
    if |a| == 0 then |b| > 0
    else if |b| == 0 then false
    else a[0] < b[0] || (a[0] == b[0] && StrLess(a[1..], b[1..]))
  }

  lemma {:induction false} StrLessIrreflexive(a: string)
    ensures !StrLess(a, a)
    decreases |a|
  {
    if |a| > 0 {
      StrLessIrreflexive(a[1..]);
    }
  }

  lemma {:induction false} StrLessAsymmetric(a: string, b: string)
    requires StrLess(a, b)
    ensures !StrLess(b, a)
    decreases |a|
  {
    if |a| > 0 && a[0] == b[0] {
      StrLessAsymmetric(a[1..], b[1..]);
    }
  }

  lemma {:induction false} StrLessTransitive(a: string, b: string, c: string)
    requires StrLess(a, b) && StrLess(b, c)
    ensures StrLess(a, c)
    decreases |a|
  {
    if |a| > 0 && a[0] == b[0] && b[0] == c[0] {
      StrLessTransitive(a[1..], b[1..], c[1..]);
    }
  }

  lemma {:induction false} StrLessTotal(a: string, b: string)
    ensures a == b || StrLess(a, b) || StrLess(b, a)
    decreases |a|
  {
    if |a| > 0 && |b| > 0 && a[0] == b[0] {
      StrLessTotal(a[1..], b[1..]);
      assert a == [a[0]] + a[1..] && b == [b[0]] + b[1..];
    }
  }

  // ---------------------------------------------------------------------------
  // `CLICommand::OptionType`
  // ---------------------------------------------------------------------------

  /// An option or sub command of a command: long name, short name (`'\0'`
  /// for none) and description.
  datatype OptionType = OptionType(name: string, shortName: char, desc: string)

  /// `OptionType::operator==`: the same name, or the same short name when
  /// there is one.
  predicate OptionEq(a: OptionType, b: OptionType) {
    a.name == b.name || (a.shortName == b.shortName && a.shortName != NUL)
  }

  /// `OptionType::operator<`: by name only.
  predicate OptionLess(a: OptionType, b: OptionType) {
    StrLess(a.name, b.name)
  }

  /// Options with the same name are equal whatever their short names; a
  /// `'\0'` short name never makes differently named options equal.
  lemma OptionEqByName(a: OptionType, b: OptionType)
    ensures a.name == b.name ==> OptionEq(a, b)
    ensures a.shortName == NUL || b.shortName == NUL ==> (OptionEq(a, b) <==> a.name == b.name)
    ensures OptionEq(a, b) == OptionEq(b, a)
  {
  }

  /// Option equality is not transitive: two options can each equal a third
  /// (one by short name, one by name) without being equal.
  lemma OptionEqNotTransitive()
    ensures var a := OptionType("all", 'a', "");
            var b := OptionType("append", 'a', "");
            var c := OptionType("append", 'p', "");
            OptionEq(a, b) && OptionEq(b, c) && !OptionEq(a, c)
  {
  }

  /// The option order is a strict weak order whose "neither is smaller"
  /// relation is "same name".
  lemma OptionLessStrictWeak(a: OptionType, b: OptionType, c: OptionType)
    ensures !OptionLess(a, a)
    ensures OptionLess(a, b) ==> !OptionLess(b, a)
    ensures OptionLess(a, b) && OptionLess(b, c) ==> OptionLess(a, c)
    ensures !OptionLess(a, b) && !OptionLess(b, a) <==> a.name == b.name
  {
    StrLessIrreflexive(a.name);
    StrLessTotal(a.name, b.name);
    if OptionLess(a, b) {
      StrLessAsymmetric(a.name, b.name);
      if OptionLess(b, c) {
        StrLessTransitive(a.name, b.name, c.name);
      }
    }
  }

  /// Equality and order disagree: options equal by short name can still be
  /// ordered one before the other.
  lemma OptionEqDisagreesWithOrder()
    ensures var a := OptionType("all", 'a', "");
            var b := OptionType("append", 'a', "");
            OptionEq(a, b) && OptionLess(a, b)
  {
    assert "all"[1..] == "ll" && "append"[1..] == "ppend";
  }

  // ---------------------------------------------------------------------------
  // `CLICommand`
  // ---------------------------------------------------------------------------

  /// A command: its name, description, options and sub commands.  The name
  /// is fixed at construction.
  class CLICommand {
    const cmd: string
    var desc: string
    var options: seq<OptionType>
    var subcmds: seq<OptionType>

    /// `CLICommand(cmd, desc)`: no options and no sub commands yet.
    constructor (cmd: string, desc: string)
      ensures this.cmd == cmd && this.desc == desc
      ensures options == [] && subcmds == []
    {
      this.cmd := cmd;
      this.desc := desc;
      options := [];
      subcmds := [];
    }
  }

  /// `CLICommand::operator==`: by name.
  predicate CommandEq(a: CLICommand, b: CLICommand) {
    a.cmd == b.cmd
  }

  /// `CLICommand::operator<`: by name.
  predicate CommandLess(a: CLICommand, b: CLICommand) {
    StrLess(a.cmd, b.cmd)
  }

  /// Unlike for options, command equality is exactly the equivalence of the
  /// command order, and that order is strict.
  lemma CommandOrderMatchesEquality(a: CLICommand, b: CLICommand)
    ensures CommandEq(a, b) <==> !CommandLess(a, b) && !CommandLess(b, a)
    ensures CommandLess(a, b) ==> !CommandLess(b, a)
  {
    StrLessIrreflexive(a.cmd);
    StrLessTotal(a.cmd, b.cmd);
    if CommandLess(a, b) {
      StrLessAsymmetric(a.cmd, b.cmd);
    }
  }

  // ---------------------------------------------------------------------------
  // `CLI`: the command registry
  // ---------------------------------------------------------------------------

  /// The registry part of `CLI`.  `freed` records the commands the registry
  /// has deleted, so that a pointer to a deleted command can be recognised.
  class CLI {
    /// `CLICommandMap commands`: command name to command.
    var commands: map<string, CLICommand>
    ghost var freed: set<CLICommand>

    /// Every command is stored under its own name.
    ghost predicate Keyed()
      reads this
    {
      forall n :: n in commands ==> commands[n].cmd == n
    }

    /// No stored pointer refers to a deleted command.
    ghost predicate Live()
      reads this
    {
      forall n :: n in commands ==> commands[n] !in freed
    }

    /// `contains(name)`.
    predicate Contains(name: string)
      reads this
    {
      name in commands
    }

    /// `command(name)`: the command stored under `name`, or null.
    function Command(name: string): (r: CLICommand?)
      reads this
      ensures r == null <==> !Contains(name)
      ensures r != null ==> r in commands.Values
      ensures r != null && Keyed() ==> r.cmd == name
    {
      if name in commands then commands[name] else null
    }

    /// `take(name)`: removes the command stored under `name` from the
    /// registry, without deleting it, and returns it; null if there is none.
    method Take(name: string) returns (r: CLICommand?)
      modifies this
      ensures name !in old(commands) ==> r == null && commands == old(commands)
      ensures name in old(commands) ==> r == old(commands)[name] && commands == old(commands) - {name}
      ensures freed == old(freed)
      ensures old(Keyed()) ==> Keyed()
      ensures old(Live()) ==> Live()
    {
      if name !in commands {
        return null;
      }
      r := commands[name];
      commands := commands - {name};
    }

    /// `insertCommand(command)` as written: takes out and deletes whatever
    /// is stored under the command's name, then stores the command there.
    /// When that old entry is `command` itself, the registry ends up holding
    /// a command it has just deleted.
    method InsertCommand(command: CLICommand)
      requires command !in freed
      modifies this
      ensures commands == old(commands)[command.cmd := command]
      ensures Contains(command.cmd) && Command(command.cmd) == command
      ensures forall n :: n != command.cmd ==> Command(n) == old(Command(n))
      ensures freed == old(freed) + (if command.cmd in old(commands) then {old(commands)[command.cmd]} else {})
      ensures old(Keyed()) ==> Keyed()
      ensures old(Keyed() && Live()) && old(Command(command.cmd)) != command ==> Live()
      ensures old(Command(command.cmd)) == command ==> command in freed
    {
      var prev := Take(command.cmd);
      if prev != null {
        freed := freed + {prev};
      }
      commands := commands[command.cmd := command];
    }

    /// `insertCommand` with the evidently intended behaviour: re-inserting
    /// the stored command keeps it instead of deleting it.
    method InsertCommandChecked(command: CLICommand)
      requires command !in freed
      modifies this
      ensures commands == old(commands)[command.cmd := command]
      ensures Contains(command.cmd) && Command(command.cmd) == command
      ensures forall n :: n != command.cmd ==> Command(n) == old(Command(n))
      ensures freed == old(freed) + (if command.cmd in old(commands) && old(commands)[command.cmd] != command
                                     then {old(commands)[command.cmd]} else {})
      ensures old(Keyed()) ==> Keyed()
      ensures old(Keyed() && Live()) ==> Live()
    {
      var prev := Take(command.cmd);
      if prev != null && prev != command {
        freed := freed + {prev};
      }
      commands := commands[command.cmd := command];
    }

    /// The template `insertCommand(name, f, desc)`: wraps a new command and
    /// inserts it.  A new command is never the stored one, so the registry
    /// stays free of deleted commands.
    method InsertNewCommand(name: string, desc: string) returns (c: CLICommand)
      requires Keyed() && Live()
      modifies this
      ensures fresh(c) && c.cmd == name && c.desc == desc
      ensures commands == old(commands)[name := c]
      ensures freed == old(freed) + (if name in old(commands) then {old(commands)[name]} else {})
      ensures Keyed() && Live()
    {
      c := new CLICommand(name, desc);
      InsertCommand(c);
    }
  }

  /// Inserting the same command twice through `InsertCommand`: the second
  /// call deletes the command and stores it again.
  method ReinsertSameCommand(cli: CLI, c: CLICommand)
    requires cli.Keyed() && c !in cli.freed && !cli.Contains(c.cmd)
    modifies cli
    ensures cli.Command(c.cmd) == c && c in cli.freed
    ensures !cli.Live()
  {
    cli.InsertCommand(c);
    cli.InsertCommand(c);
  }
}
