/**
 * `CmdLineOptions` of cmdline.rs: the interface, port and sandbox switch
 * the server is started with, read from the program's arguments.
 */
module CmdLine {
  import opened Text

  datatype Options = Options(host: string, port: nat, sandbox: bool)

  /** How `CmdLineOptions::parse` ends. `Help` stands for printing the help text and exiting with status 0. */
  datatype Outcome = Parsed(options: Options) | Help | Error(message: string) | Panicked

  /** `CmdLineOptions::default`: all interfaces, port 8000, sandboxed. */
  function Default(): (o: Options)
    ensures o.port <= U32_MAX
  {
    Options("0.0.0.0", 8000, true)
  }

  predicate IsHelp(arg: string)
  {
    arg == "-h" || arg == "--help"
  }

  predicate IsHost(arg: string)
  {
    arg == "-i" || arg == "--host"
  }

  predicate IsPort(arg: string)
  {
    arg == "-p" || arg == "--port"
  }

  /** An argument that none of the options recognises: it is reported and skipped. */
  predicate IsUnknown(arg: string)
  {
    !IsHelp(arg) && !IsHost(arg) && !IsPort(arg) && arg != "--no-sandbox"
  }

  /**
   * The options after reading the arguments from position `i` on, starting
   * from `options`. An option that takes a value consumes the next argument
   * too; a missing or unparsable value is an error; help ends the parse.
   */
  function ParseFrom(args: seq<string>, i: nat, options: Options): (r: Outcome)
    requires i <= |args|
    requires options.port <= U32_MAX
    ensures r.Parsed? ==> r.options.port <= U32_MAX
    ensures r.Error? ==> r.message in {"No host provided", "Invalid Port", "No port provided"}
    ensures r != Panicked
    decreases |args| - i
  {
    if i == |args| then Parsed(options)
    else
      var arg := args[i];
      if IsHost(arg) then
        if i + 1 < |args| then ParseFrom(args, i + 2, options.(host := args[i + 1]))
        else Error("No host provided")
      else if IsPort(arg) then
        if i + 1 < |args| then
          match ParseUnsigned(args[i + 1], U32_MAX)
          case Some(port) => ParseFrom(args, i + 2, options.(port := port))
          case None => Error("Invalid Port")
        else Error("No port provided")
      else if arg == "--no-sandbox" then ParseFrom(args, i + 1, options.(sandbox := false))
      else if IsHelp(arg) then Help
      else ParseFrom(args, i + 1, options)
  }

  /** `CmdLineOptions::parse` on the arguments, the program name first. Slicing off a missing program name panics. */
  function ParseArgs(args: seq<string>): (r: Outcome)
    ensures r == Panicked <==> args == []
  {
    if args == [] then Panicked else ParseFrom(args, 1, Default())
  }

  /** The loop of `CmdLineOptions::parse`, with its `skip` flag for an option's value. */
  method Parse(args: seq<string>) returns (r: Outcome)
    ensures r == ParseArgs(args)
  {
    if args == [] {
      return Panicked;
    }
    var options := Default();
    var skip := false;
    var idx := 0;
    while idx < |args| - 1
      invariant idx <= |args| - 1
      invariant skip ==> idx + 1 < |args|
      invariant options.port <= U32_MAX
      invariant ParseArgs(args) == ParseFrom(args, if skip then idx + 2 else idx + 1, options)
    {
      if skip {
        skip := false;
        idx := idx + 1;
        continue;
      }
      var arg := args[idx + 1];
      if IsHost(arg) {
        if idx + 2 < |args| {
          skip := true;
          options := options.(host := args[idx + 2]);
        } else {
          return Error("No host provided");
        }
      } else if IsPort(arg) {
        if idx + 2 < |args| {
          skip := true;
          var port := ParseUnsigned(args[idx + 2], U32_MAX);
          if port.None? {
            return Error("Invalid Port");
          }
          options := options.(port := port.value);
        } else {
          return Error("No port provided");
        }
      } else if arg == "--no-sandbox" {
        options := options.(sandbox := false);
      } else if IsHelp(arg) {
        return Help;
      }
      idx := idx + 1;
    }
    return Parsed(options);
  }

  /** With no arguments after the program name the defaults are used. */
  lemma NoArguments(program: string)
    ensures ParseArgs([program]) == Parsed(Default())
    ensures ParseArgs([program]) == Parsed(Options("0.0.0.0", 8000, true))
  {
  }

  /**
   * Arguments that parse completely leave the parse of a longer argument
   * list exactly where they end, with the options they produced.
   */
  lemma {:induction false} ParseAppend(args: seq<string>, rest: seq<string>, i: nat, options: Options)
    requires i <= |args| && options.port <= U32_MAX
    requires ParseFrom(args, i, options).Parsed?
    ensures ParseFrom(args + rest, i, options) == ParseFrom(args + rest, |args|, ParseFrom(args, i, options).options)
    decreases |args| - i
  {
    var all := args + rest;
    if i < |args| {
      assert all[i] == args[i];
      var arg := args[i];
      if IsHost(arg) {
        assert all[i + 1] == args[i + 1];
        ParseAppend(args, rest, i + 2, options.(host := args[i + 1]));
      } else if IsPort(arg) {
        assert all[i + 1] == args[i + 1];
        ParseAppend(args, rest, i + 2, options.(port := ParseUnsigned(args[i + 1], U32_MAX).value));
      } else if arg == "--no-sandbox" {
        ParseAppend(args, rest, i + 1, options.(sandbox := false));
      } else {
        ParseAppend(args, rest, i + 1, options);
      }
    }
  }

  /** After arguments that parse, a later -i / --host sets the host, overriding any earlier one. */
  lemma LastHostWins(args: seq<string>, flag: string, host: string)
    requires ParseArgs(args).Parsed? && IsHost(flag)
    ensures ParseArgs(args + [flag, host]) == Parsed(ParseArgs(args).options.(host := host))
  {
    ParseAppend(args, [flag, host], 1, Default());
  }

  /** After arguments that parse, a later -p / --port with a `u32` in decimal sets the port. */
  lemma LastPortWins(args: seq<string>, flag: string, port: nat)
    requires ParseArgs(args).Parsed? && IsPort(flag) && port <= U32_MAX
    ensures ParseArgs(args + [flag, Decimal(port)]) == Parsed(ParseArgs(args).options.(port := port))
  {
    ParseAppend(args, [flag, Decimal(port)], 1, Default());
    ParseDecimal(port, U32_MAX);
  }

  /** A port value that `parse::<u32>` rejects is an error. */
  lemma PortOutOfRange(args: seq<string>, flag: string, value: string)
    requires ParseArgs(args).Parsed? && IsPort(flag) && ParseUnsigned(value, U32_MAX).None?
    ensures ParseArgs(args + [flag, value]) == Error("Invalid Port")
  {
    ParseAppend(args, [flag, value], 1, Default());
  }

  /** A port beyond `u32::MAX`, such as 4294967296, is an error. */
  lemma PortBeyondU32(args: seq<string>, flag: string, port: nat)
    requires ParseArgs(args).Parsed? && IsPort(flag) && port > U32_MAX
    ensures ParseArgs(args + [flag, Decimal(port)]) == Error("Invalid Port")
  {
    DecimalValue(port);
    PortOutOfRange(args, flag, Decimal(port));
  }

  /** A negative port is an error: "-1" is not a `u32`. */
  lemma NegativePort(args: seq<string>, flag: string)
    requires ParseArgs(args).Parsed? && IsPort(flag)
    ensures ParseArgs(args + [flag, "-1"]) == Error("Invalid Port")
  {
    assert !IsDigit("-1"[0]);
    PortOutOfRange(args, flag, "-1");
  }

  /** An option missing its value at the end of the arguments is an error. */
  lemma MissingValue(args: seq<string>, flag: string)
    requires ParseArgs(args).Parsed? && (IsHost(flag) || IsPort(flag))
    ensures ParseArgs(args + [flag]) == Error(if IsHost(flag) then "No host provided" else "No port provided")
  {
    ParseAppend(args, [flag], 1, Default());
  }

  /** Help ends the parse whatever follows it, even a malformed option. */
  lemma HelpWins(args: seq<string>, flag: string, rest: seq<string>)
    requires ParseArgs(args).Parsed? && IsHelp(flag)
    ensures ParseArgs(args + [flag] + rest) == Help
  {
    ParseAppend(args, [flag] + rest, 1, Default());
    assert args + [flag] + rest == args + ([flag] + rest);
  }

  /** --no-sandbox turns the sandbox off and changes nothing else. */
  lemma NoSandbox(args: seq<string>)
    requires ParseArgs(args).Parsed?
    ensures ParseArgs(args + ["--no-sandbox"]) == Parsed(ParseArgs(args).options.(sandbox := false))
  {
    ParseAppend(args, ["--no-sandbox"], 1, Default());
  }

  /** An unrecognised argument is skipped without changing the options. */
  lemma UnknownIgnored(args: seq<string>, arg: string)
    requires ParseArgs(args).Parsed? && IsUnknown(arg)
    ensures ParseArgs(args + [arg]) == ParseArgs(args)
  {
    ParseAppend(args, [arg], 1, Default());
  }
}
