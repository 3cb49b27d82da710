/** command.h and command.cc: the commands of the command line tool, kept
    by name, and the choice of the command the arguments name. */
module Commands {
  import opened GtlStatus
  import opened Worklog

  /** CommandContext: the arguments as given and the configuration. */
  datatype CommandContext = CommandContext(args: seq<string>, config: Config)

  /** Command::Action: what a command does, returning the exit code. */
  type Action = CommandContext -> int

  /** Command: a name, a line of help and an action. */
  datatype Command = Command(name: string, description: string, action: Action)

  const NoCommandMessage: string := "No command specified"
  const NotFoundMessage: string := "Command not found"

  // ---------------------------------------------------------------------
  // The registry
  // ---------------------------------------------------------------------

  /** CommandParser::Add on the registry: std::map::emplace inserts the
      command under its name unless that name is taken already. */
  function Added(commands: map<string, Command>, cmd: Command): map<string, Command>
  {
    if cmd.name in commands then commands else commands[cmd.name := cmd]
  }

  /** Adding registers the name, keeps every command already registered,
      and binds a new name to the command added. */
  lemma AddedEntries(commands: map<string, Command>, cmd: Command)
    ensures Added(commands, cmd).Keys == commands.Keys + {cmd.name}
    ensures forall name :: name in commands ==> Added(commands, cmd)[name] == commands[name]
    ensures cmd.name !in commands ==> Added(commands, cmd)[cmd.name] == cmd
  {
  }

  /** The registry built by adding `cmds` in order to an empty one. */
  function Registry(cmds: seq<Command>): map<string, Command>
    decreases |cmds|
  {
    if |cmds| == 0 then map[] else Added(Registry(cmds[..|cmds| - 1]), cmds[|cmds| - 1])
  }

  /** The names registered are the names of the commands added. */
  lemma {:induction false} RegistryNames(cmds: seq<Command>)
    ensures Registry(cmds).Keys == set c | c in cmds :: c.name
    decreases |cmds|
  {
    if |cmds| > 0 {
      var init := cmds[..|cmds| - 1];
      RegistryNames(init);
      AddedEntries(Registry(init), cmds[|cmds| - 1]);
      assert cmds == init + [cmds[|cmds| - 1]];
    }
  }

  /** A name is bound to the first command added under it; later commands
      of the same name are ignored. */
  lemma {:induction false} RegistryFirstWins(cmds: seq<Command>, i: nat)
    requires i < |cmds|
    requires forall j :: 0 <= j < i ==> cmds[j].name != cmds[i].name
    ensures cmds[i].name in Registry(cmds) && Registry(cmds)[cmds[i].name] == cmds[i]
    decreases |cmds|
  {
    var init := cmds[..|cmds| - 1];
    AddedEntries(Registry(init), cmds[|cmds| - 1]);
    if i < |init| {
      RegistryFirstWins(init, i);
    } else {
      RegistryNames(init);
      assert cmds[i].name !in Registry(init) by {
        forall c | c in init ensures c.name != cmds[i].name {
          var j :| 0 <= j < |init| && init[j] == c;
        }
      }
    }
  }

  // ---------------------------------------------------------------------
  // Choosing the command
  // ---------------------------------------------------------------------

  /** CommandParser::Parse on the registry: the second argument names the
      command (the first is the program); fewer than two arguments is an
      invalid argument, an unknown name is not found. */
  function Lookup(commands: map<string, Command>, args: seq<string>): (r: StatusOr<Action>)
    ensures r.Value? <==> |args| > 1 && args[1] in commands
    ensures r.Value? ==> r.value == commands[args[1]].action
    ensures r.Error? ==> !r.status.Ok()
    ensures |args| <= 1 ==> r == Error(Status(INVALID_ARGUMENT, NoCommandMessage))
    ensures |args| > 1 && args[1] !in commands ==> r == Error(Status(NOT_FOUND, NotFoundMessage))
  {
    if |args| <= 1 then Error(Status(INVALID_ARGUMENT, NoCommandMessage))
    else if args[1] in commands then Value(commands[args[1]].action)
    else Error(Status(NOT_FOUND, NotFoundMessage))
  }

  /** Only the second argument decides: the program name and the arguments
      after the command's name do not. */
  lemma LookupReadsOnlyName(commands: map<string, Command>, args: seq<string>, other: seq<string>)
    requires |args| > 1 && |other| > 1 && args[1] == other[1]
    ensures Lookup(commands, args) == Lookup(commands, other)
  {
  }

  /** Naming a command added before any other of its name runs that
      command's action. */
  lemma LookupRegistered(cmds: seq<Command>, i: nat, args: seq<string>)
    requires i < |cmds|
    requires forall j :: 0 <= j < i ==> cmds[j].name != cmds[i].name
    requires |args| > 1 && args[1] == cmds[i].name
    ensures Lookup(Registry(cmds), args) == Value(cmds[i].action)
  {
    RegistryFirstWins(cmds, i);
  }

  /** Naming no command that was added is not found. */
  lemma LookupUnregistered(cmds: seq<Command>, args: seq<string>)
    requires |args| > 1 && forall c :: c in cmds ==> c.name != args[1]
    ensures Lookup(Registry(cmds), args) == Error(Status(NOT_FOUND, NotFoundMessage))
  {
    RegistryNames(cmds);
  }

  /** CommandParser: the registry of commands, by name. */
  class CommandParser {
    var commands: map<string, Command>

    constructor()
      ensures commands == map[]
    {
      commands := map[];
    }

    /** CommandParser::Add. */
    method Add(cmd: Command)
      modifies this
      ensures commands == Added(old(commands), cmd)
    {
      if cmd.name !in commands {
        commands := commands[cmd.name := cmd];
      }
    }

    /** CommandParser::Parse. */
    method Parse(args: seq<string>) returns (r: StatusOr<Action>)
      ensures r == Lookup(commands, args)
    {
      if |args| <= 1 {
        return Error(Status(INVALID_ARGUMENT, NoCommandMessage));
      }
      var name := args[1];
      if name in commands {
        return Value(commands[name].action);
      }
      return Error(Status(NOT_FOUND, NotFoundMessage));
    }
  }
}
