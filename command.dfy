/**
 * Commands: a resolved argument tuple (program name first) and an option
 * record. A context (`sh`) builds commands from nested argument lists; a
 * command can be applied to more arguments, concatenated with `%`, given
 * environment variables, settings and redirections, each yielding a new
 * command. Equality is structural over the arguments and the options.
 */
module Commands {
  import opened Wrappers
  import opened Errors
  import opened Args
  import opened CommandOptions

  /** A command context (`sh`): the options its commands start with. */
  datatype Context = Context(options: Options)

  datatype Command = Command(args: seq<Arg>, options: Options)

  /**
   * An operand of `%`: a command, or `None` or another value that does not
   * define `%` with a command (a `str` on the left formats itself instead).
   */
  datatype Operand = CommandOperand(cmd: Command) | OtherOperand

  /** `context()`: a context with default options. */
  const DefaultContext: Context := Context(Default)

  /** `sh.env(**vars)`: a context whose commands carry these variables. */
  function ContextEnv(ctx: Context, vars: map<string, EnvValue>): (r: Context)
    ensures r.options == SetEnv(ctx.options, vars)
  {
    Context(SetEnv(ctx.options, vars))
  }

  /** `sh.set(**kwargs)`. */
  function ContextSet(ctx: Context, settings: seq<Setting>): (r: Context)
    ensures r.options == CommandOptions.Set(ctx.options, settings)
  {
    Context(CommandOptions.Set(ctx.options, settings))
  }

  /**
   * `sh(*args)`: resolves the arguments and builds a command with the
   * context's options; the first resolved argument is the program name,
   * and there must be one.
   */
  function Call(ctx: Context, items: seq<Arg>): (r: Result<Command, Error>)
    ensures Flatten(items).Err? ==> r == Err(Flatten(items).error)
    ensures Flatten(items) == Ok([]) ==> r == Err(MissingProgramName)
    ensures r.Ok? <==> Flatten(items).Ok? && Flatten(items).value != []
    ensures r.Ok? ==> r.value == Command(Flatten(items).value, ctx.options)
    ensures r.Ok? ==> |r.value.args| > 0 && AllResolved(r.value.args)
  {
    match Flatten(items)
    case Err(e) => Err(e)
    case Ok(args) => if args == [] then Err(MissingProgramName) else Ok(Command(args, ctx.options))
  }

  /** `cmd(*args)`: resolves the arguments and appends them, keeping the options. */
  function Apply(cmd: Command, items: seq<Arg>): (r: Result<Command, Error>)
    ensures Flatten(items).Err? ==> r == Err(Flatten(items).error)
    ensures Flatten(items).Ok? ==> r == Ok(Command(cmd.args + Flatten(items).value, cmd.options))
  {
    match Flatten(items)
    case Err(e) => Err(e)
    case Ok(more) => Ok(Command(cmd.args + more, cmd.options))
  }

  /** `lhs % rhs`: `lhs` applied to the arguments of `rhs`; anything but two commands is a type error. */
  function Concat(lhs: Operand, rhs: Operand): (r: Result<Command, Error>)
    ensures !(lhs.CommandOperand? && rhs.CommandOperand?) ==> r == Err(UnsupportedOperand) && ClassOf(r.error) == TypeError
    ensures lhs.CommandOperand? && rhs.CommandOperand? ==> r == Apply(lhs.cmd, rhs.cmd.args)
  {
    if lhs.CommandOperand? && rhs.CommandOperand? then Apply(lhs.cmd, rhs.cmd.args)
    else Err(UnsupportedOperand)
  }

  /** `cmd.env(**vars)`. */
  function Env(cmd: Command, vars: map<string, EnvValue>): (r: Command)
    ensures r == Command(cmd.args, SetEnv(cmd.options, vars))
  {
    Command(cmd.args, SetEnv(cmd.options, vars))
  }

  /** `cmd.set(**kwargs)`. */
  function Set(cmd: Command, settings: seq<Setting>): (r: Command)
    ensures r == Command(cmd.args, CommandOptions.Set(cmd.options, settings))
  {
    Command(cmd.args, CommandOptions.Set(cmd.options, settings))
  }

  /** `cmd.stdin(target)`. */
  function Stdin(cmd: Command, target: Target): (r: Command)
    ensures r.args == cmd.args && r.options == cmd.options.(stdin := target)
  {
    Command(cmd.args, cmd.options.(stdin := target))
  }

  /** `cmd.stdout(target, append=append)`: `append` only with a file name target. */
  function Stdout(cmd: Command, target: Target, append: bool): (r: Result<Command, Error>)
    ensures r.Err? <==> append && !IsPathLike(target)
    ensures r.Err? ==> r.error == AppendNotAllowed && ClassOf(r.error) == TypeError && Contains(Message(r.error), "append")
    ensures r.Ok? ==> r.value == Command(cmd.args, cmd.options.(stdout := Redirect(target, append)))
  {
    match CheckRedirect(target, append)
    case Err(e) => Err(e)
    case Ok(redirect) => Ok(Command(cmd.args, cmd.options.(stdout := redirect)))
  }

  /** `cmd.stderr(target, append=append)`: `append` only with a file name target. */
  function Stderr(cmd: Command, target: Target, append: bool): (r: Result<Command, Error>)
    ensures r.Err? <==> append && !IsPathLike(target)
    ensures r.Err? ==> r.error == AppendNotAllowed && ClassOf(r.error) == TypeError && Contains(Message(r.error), "append")
    ensures r.Ok? ==> r.value == Command(cmd.args, cmd.options.(stderr := Redirect(target, append)))
  {
    match CheckRedirect(target, append)
    case Err(e) => Err(e)
    case Ok(redirect) => Ok(Command(cmd.args, cmd.options.(stderr := redirect)))
  }

  /** `cmd._replace_args(args)`: the given tuple, verbatim and unresolved, with the same options. */
  function ReplaceArgs(cmd: Command, args: seq<Arg>): (r: Command)
    ensures r.args == args && r.options == cmd.options
  {
    Command(args, cmd.options)
  }

  /** `cmd.name`: the alternate name when one is set, else the program name. */
  function Name(cmd: Command): (r: Option<Arg>)
    ensures cmd.options.altName.Some? ==> r == Some(Text(cmd.options.altName.value))
    ensures cmd.options.altName.None? && cmd.args != [] ==> r == Some(cmd.args[0])
  {
    match cmd.options.altName
    case Some(n) => Some(Text(n))
    case None => if cmd.args == [] then None else Some(cmd.args[0])
  }

  // ---------------------------------------------------------------------
  // Construction

  /**
   * A command needs a program name: the call fails with the invalid-argument
   * error exactly when the arguments hold no leaf at all (no arguments, or
   * only empty tuples and lists).
   */
  lemma CallMissingProgramName(ctx: Context, items: seq<Arg>)
    ensures Call(ctx, items) == Err(MissingProgramName) <==> Leaves(items) == []
    ensures Leaves(items) == [] ==>
      ClassOf(Call(ctx, items).error) == ValueError
      && Contains(Message(Call(ctx, items).error), "Command must include program name")
  {
    FlattenEmpty(items);
    FlattenSpec(items);
    if Flatten(items).Err? {
      var k: nat :| FirstFailure(Leaves(items), k, Flatten(items).error);
      assert ClassOf(Flatten(items).error) != ValueError;
    }
  }

  /**
   * The stored arguments are the leaves of the nested argument lists, in
   * order, each coerced on its own; when a leaf cannot be coerced, the call
   * fails with the error of the first such leaf.
   */
  lemma CallResolvesLeaves(ctx: Context, items: seq<Arg>)
    ensures Call(ctx, items).Ok? ==> CoercedLeaves(Leaves(items), Call(ctx, items).value.args)
    ensures Call(ctx, items).Ok? ==> Call(ctx, items).value.options == ctx.options
    ensures Call(ctx, items).Err? && Leaves(items) != [] ==>
      exists k: nat :: FirstFailure(Leaves(items), k, Call(ctx, items).error)
  {
    FlattenSpec(items);
    FlattenEmpty(items);
  }

  /** Text and bytes arguments are stored as given: no glob or variable expansion. */
  lemma CallKeepsResolved(ctx: Context, args: seq<Arg>)
    requires args != [] && AllResolved(args)
    ensures Call(ctx, args) == Ok(Command(args, ctx.options))
  {
    FlattenResolved(args);
  }

  /** When every leaf coerces, the call stores the coerced leaves, in order. */
  lemma CallOfLeaves(ctx: Context, items: seq<Arg>, expected: seq<Arg>)
    requires expected != [] && |expected| == |Leaves(items)|
    requires forall k :: 0 <= k < |expected| ==> Coerce(Leaves(items)[k]) == Ok(expected[k])
    ensures Call(ctx, items) == Ok(Command(expected, ctx.options))
  {
    FlattenSpec(items);
    assert Flatten(items).value == expected;
  }

  /** Scalars are their own leaves. */
  lemma {:induction false} LeavesOfScalars(xs: seq<Arg>)
    requires forall k :: 0 <= k < |xs| ==> !xs[k].List?
    ensures Leaves(xs) == xs
    decreases xs
  {
    if xs != [] {
      LeavesOfScalars(xs[1..]);
      assert [xs[0]] + xs[1..] == xs;
    }
  }

  /** The leaves of a one-element argument list holding a list are that list's leaves. */
  lemma LeavesOfOneList(xs: seq<Arg>)
    ensures Leaves([List(xs)]) == Leaves(xs)
  {
    assert [List(xs)][1..] == [];
    assert Leaves(xs) + [] == Leaves(xs);
  }

  /** A one-digit integer argument becomes its digit. */
  lemma DigitArg(d: int)
    requires 0 <= d < 10
    ensures Coerce(Int(d)) == Ok(Text([('0' as int + d) as char]))
  {
  }

  /** `sh("echo", "a", 2)` stores `("echo", "a", "2")`. */
  lemma CallCoercesInt(ctx: Context, items: seq<Arg>)
    requires items == [Text("echo"), Text("a"), Int(2)]
    ensures Call(ctx, items) == Ok(Command([Text("echo"), Text("a"), Text("2")], ctx.options))
  {
    DigitArg(2);
    LeavesOfScalars(items);
    CallOfLeaves(ctx, items, [Text("echo"), Text("a"), Text("2")]);
  }

  /** `str(1+3j)` is `"(1+3j)"`. */
  lemma ComplexArg()
    ensures Coerce(Complex(1, 3)) == Ok(Text("(1+3j)"))
  {
    assert Decimal.IntToText(1) == "1";
    assert Decimal.IntToText(3) == "3";
    var re: ExactInt, im: ExactInt := 1, 3;
    assert !(im < 0);
    assert ComplexText(re, im) == "(" + "1" + "+" + ("3" + "j") + ")";
    assert "(" + "1" + "+" + ("3" + "j") + ")" == "(1+3j)";
  }

  /** The leaves of the nested argument list of `test_nested_list_arg`. */
  lemma NestedLeaves(items: seq<Arg>)
    requires items == [Text("echo"), List([Text("-n"), List([Text("arg1")])]),
                       List([Int(1), Int(2), Int(3)]), List([Complex(1, 3)])]
    ensures Leaves(items) == [Text("echo"), Text("-n"), Text("arg1"), Int(1), Int(2), Int(3), Complex(1, 3)]
  {
    var head := [Text("echo")];
    var inner := [List([Text("-n"), List([Text("arg1")])])];
    var ints := [List([Int(1), Int(2), Int(3)])];
    var complex := [List([Complex(1, 3)])];
    LeavesOfScalars(head);
    InnerLeaves(inner);
    ScalarListLeaves([Int(1), Int(2), Int(3)]);
    ScalarListLeaves([Complex(1, 3)]);
    assert items == head + inner + ints + complex;
    LeavesAppend(head, inner);
    LeavesAppend(head + inner, ints);
    LeavesAppend(head + inner + ints, complex);
  }

  lemma InnerLeaves(inner: seq<Arg>)
    requires inner == [List([Text("-n"), List([Text("arg1")])])]
    ensures Leaves(inner) == [Text("-n"), Text("arg1")]
  {
    var xs := [Text("-n"), List([Text("arg1")])];
    LeavesOfOneList(xs);
    LeavesOfScalars([Text("-n")]);
    ScalarListLeaves([Text("arg1")]);
    assert xs == [Text("-n")] + [List([Text("arg1")])];
    LeavesAppend([Text("-n")], [List([Text("arg1")])]);
  }

  lemma ScalarListLeaves(xs: seq<Arg>)
    requires forall k :: 0 <= k < |xs| ==> !xs[k].List?
    ensures Leaves([List(xs)]) == xs
  {
    LeavesOfOneList(xs);
    LeavesOfScalars(xs);
  }

  /** `sh("echo", ["-n", ["arg1"]], [1, 2, 3], [1+3j])` stores the flattened, stringified leaves. */
  lemma CallNestedLists(ctx: Context, items: seq<Arg>)
    requires items == [Text("echo"), List([Text("-n"), List([Text("arg1")])]),
                       List([Int(1), Int(2), Int(3)]), List([Complex(1, 3)])]
    ensures Call(ctx, items) == Ok(Command([Text("echo"), Text("-n"), Text("arg1"),
                                           Text("1"), Text("2"), Text("3"), Text("(1+3j)")], ctx.options))
  {
    NestedLeaves(items);
    DigitArg(1);
    DigitArg(2);
    DigitArg(3);
    ComplexArg();
    CallOfLeaves(ctx, items, [Text("echo"), Text("-n"), Text("arg1"),
                              Text("1"), Text("2"), Text("3"), Text("(1+3j)")]);
  }

  /** A `bytearray` argument is stored as `bytes` with the same contents. */
  lemma CallByteArray(ctx: Context, name: string, b: seq<Bytes.byte>)
    ensures Call(ctx, [Text(name), ByteArray(b)]) == Ok(Command([Text(name), Bytes(b)], ctx.options))
  {
    LeavesOfScalars([Text(name), ByteArray(b)]);
    CallOfLeaves(ctx, [Text(name), ByteArray(b)], [Text(name), Bytes(b)]);
  }

  /**
   * After arguments that are already resolved, a `None` argument fails the
   * call with a type error, and Ellipsis, a dict or a set with a
   * not-implemented error whose message says the syntax is reserved.
   */
  lemma CallRejectsArgument(ctx: Context, prefix: seq<Arg>, bad: Arg, rest: seq<Arg>)
    requires AllResolved(prefix)
    requires bad.NoneValue? || bad.EllipsisValue? || bad.DictValue? || bad.SetValue?
    ensures Call(ctx, prefix + [bad] + rest).Err?
    ensures bad.NoneValue? ==> ClassOf(Call(ctx, prefix + [bad] + rest).error) == TypeError
    ensures !bad.NoneValue? ==>
      ClassOf(Call(ctx, prefix + [bad] + rest).error) == NotImplementedError
      && Contains(Message(Call(ctx, prefix + [bad] + rest).error), "reserved")
  {
    FlattenResolved(prefix);
    FlattenAppend(prefix + [bad], rest);
    FlattenAppend(prefix, [bad]);
    assert Flatten([bad]) == Err(Coerce(bad).error);
  }

  // ---------------------------------------------------------------------
  // Application

  /** Applying no arguments (or only empty lists) gives back the same command, however often. */
  lemma ApplyNothing(cmd: Command, items: seq<Arg>)
    requires Leaves(items) == []
    ensures Apply(cmd, items) == Ok(cmd)
    ensures Apply(Apply(cmd, items).value, items) == Ok(cmd)
  {
    FlattenEmpty(items);
    assert cmd.args + [] == cmd.args;
  }

  /** Applying twice is applying the concatenated argument lists once. */
  lemma ApplyTwice(cmd: Command, first: seq<Arg>, second: seq<Arg>)
    requires Apply(cmd, first).Ok?
    ensures Apply(Apply(cmd, first).value, second) == Apply(cmd, first + second)
  {
    FlattenAppend(first, second);
    if Flatten(second).Ok? {
      AppendAssoc(cmd.args, Flatten(first).value, Flatten(second).value);
    }
  }

  lemma AppendAssoc(x: seq<Arg>, y: seq<Arg>, z: seq<Arg>)
    ensures x + y + z == x + (y + z)
  {
  }

  /** `sh(*a)(*b)` is `sh(*a, *b)`: applied arguments follow the existing ones. */
  lemma CallThenApply(ctx: Context, first: seq<Arg>, second: seq<Arg>)
    requires Call(ctx, first).Ok?
    ensures Apply(Call(ctx, first).value, second) == Call(ctx, first + second)
  {
    FlattenAppend(first, second);
  }

  // ---------------------------------------------------------------------
  // Concatenation

  /** `lhs % rhs` is `lhs(rhs.args)`: the right command's arguments passed as one tuple. */
  lemma ConcatIsApplyTuple(lhs: Command, rhs: Command)
    ensures Concat(CommandOperand(lhs), CommandOperand(rhs)) == Apply(lhs, [List(rhs.args)])
  {
    var tuple := [List(rhs.args)];
    assert tuple[1..] == [];
    match Flatten(rhs.args) {
      case Err(e) =>
        assert Flatten(tuple) == Err(e);
      case Ok(b) =>
        assert b + [] == b;
        assert Flatten(tuple) == Ok(b);
    }
  }

  /** With resolved arguments on the right, `%` appends them and keeps only the left options. */
  lemma ConcatKeepsLeftOptions(lhs: Command, rhs: Command)
    requires AllResolved(rhs.args)
    ensures Concat(CommandOperand(lhs), CommandOperand(rhs)) == Ok(Command(lhs.args + rhs.args, lhs.options))
  {
    FlattenResolved(rhs.args);
  }

  /**
   * `sh(*a).stdin(t) % rhs`, where `rhs` holds the resolution of `b` with any
   * options, is `sh(*a, *b).stdin(t)`.
   */
  lemma ConcatLikeOneCall(ctx: Context, a: seq<Arg>, b: seq<Arg>, t: Target, rhs: Command)
    requires Call(ctx, a).Ok?
    requires Flatten(b) == Ok(rhs.args)
    ensures Call(ctx, a + b).Ok?
    ensures Concat(CommandOperand(Stdin(Call(ctx, a).value, t)), CommandOperand(rhs))
         == Ok(Stdin(Call(ctx, a + b).value, t))
  {
    FlattenAppend(a, b);
    ConcatKeepsLeftOptions(Stdin(Call(ctx, a).value, t), rhs);
  }

  /** `cmd %= rhs` with `cmd = sh(*a)` and `rhs = sh(*b)` is `sh(*a, rhs.args)`. */
  lemma ConcatAssign(ctx: Context, a: seq<Arg>, b: seq<Arg>)
    requires Call(ctx, a).Ok? && Call(ctx, b).Ok?
    ensures Concat(CommandOperand(Call(ctx, a).value), CommandOperand(Call(ctx, b).value))
         == Call(ctx, a + [List(Call(ctx, b).value.args)])
  {
    var rhs := Call(ctx, b).value;
    ConcatIsApplyTuple(Call(ctx, a).value, rhs);
    CallThenApply(ctx, a, [List(rhs.args)]);
  }

  /**
   * A chain `a % b % c` groups to the left and equals `a(b(c.args).args)`;
   * over resolved arguments it is also associative.
   */
  lemma ConcatChain(a: Command, b: Command, c: Command)
    requires AllResolved(a.args) && AllResolved(b.args) && AllResolved(c.args)
    ensures Concat(CommandOperand(a), CommandOperand(b)).Ok?
    ensures Concat(CommandOperand(b), CommandOperand(c)).Ok?
    ensures Apply(b, [List(c.args)]).Ok?
    ensures Concat(CommandOperand(Concat(CommandOperand(a), CommandOperand(b)).value), CommandOperand(c))
         == Apply(a, [List(Apply(b, [List(c.args)]).value.args)])
    ensures Concat(CommandOperand(Concat(CommandOperand(a), CommandOperand(b)).value), CommandOperand(c))
         == Concat(CommandOperand(a), CommandOperand(Concat(CommandOperand(b), CommandOperand(c)).value))
  {
    ConcatKeepsLeftOptions(a, b);
    ConcatKeepsLeftOptions(b, c);
    var ab := Command(a.args + b.args, a.options);
    var bc := Command(b.args + c.args, b.options);
    ConcatKeepsLeftOptions(ab, c);
    assert AllResolved(bc.args) by {
      forall k | 0 <= k < |bc.args| ensures IsResolved(bc.args[k]) {
        if k >= |b.args| { assert bc.args[k] == c.args[k - |b.args|]; }
      }
    }
    ConcatKeepsLeftOptions(a, bc);
    assert ab.args + c.args == a.args + bc.args;
    ConcatIsApplyTuple(b, c);
    ConcatIsApplyTuple(a, bc);
  }

  // ---------------------------------------------------------------------
  // Environment, settings, redirections, argument replacement, name

  /** A context's `set` reaches every command it builds, as if the command had been given the keywords itself. */
  lemma CallAfterContextSet(ctx: Context, settings: seq<Setting>, items: seq<Arg>)
    ensures Call(ContextSet(ctx, settings), items) ==
      match Call(ctx, items)
      case Ok(c) => Ok(Set(c, settings))
      case Err(e) => Err(e)
  {
  }

  /** Keywords given to the context and then to a command apply in that order. */
  lemma ContextThenCommandSet(ctx: Context, first: seq<Setting>, second: seq<Setting>, items: seq<Arg>)
    requires Call(ctx, items).Ok?
    ensures Call(ContextSet(ctx, first), items).Ok?
    ensures Set(Call(ContextSet(ctx, first), items).value, second) == Set(Call(ctx, items).value, first + second)
  {
    SetAppend(ctx.options, first, second);
  }

  /** A fresh context's commands carry no environment overlay. */
  lemma DefaultEnvIsNone(items: seq<Arg>)
    requires Call(DefaultContext, items).Ok?
    ensures Call(DefaultContext, items).value.options.env.None?
    ensures MergeEnv(Call(DefaultContext, items).value.options, map[]).None?
  {
  }

  /**
   * Variables given to the context reach its commands, and variables given
   * to a command are added to them, all as text, later values winning.
   */
  lemma CommandEnvAccumulates(items: seq<Arg>, first: map<string, EnvValue>, second: map<string, EnvValue>)
    requires Call(ContextEnv(DefaultContext, first), items).Ok?
    ensures Call(ContextEnv(DefaultContext, first), items).value.options.env == Some(Stringify(first))
    ensures Env(Call(ContextEnv(DefaultContext, first), items).value, second).options.env
         == Some(Stringify(first + second))
  {
    var c := Call(ContextEnv(DefaultContext, first), items).value;
    assert map[] + Stringify(first) == Stringify(first);
    SetEnvAccumulates(Default, first, second);
    assert map[] + Stringify(first + second) == Stringify(first + second);
  }

  /** Two commands given the same integer variable are equal exactly when the values are equal. */
  lemma CommandEnvEquality(cmd: Command, key: string, i: int, j: int)
    ensures Env(cmd, map[key := EnvInt(i)]) == Env(cmd, map[key := EnvInt(j)]) <==> i == j
  {
    SetEnvIntegers(cmd.options, key, i, j);
  }

  /**
   * `_replace_args` with a resolved, non-empty tuple gives the command the
   * context would build from that tuple.
   */
  lemma ReplaceArgsLikeCall(ctx: Context, items: seq<Arg>, args: seq<Arg>)
    requires Call(ctx, items).Ok?
    requires args != [] && AllResolved(args)
    ensures Call(ctx, args).Ok?
    ensures ReplaceArgs(Call(ctx, items).value, args) == Call(ctx, args).value
  {
    FlattenResolved(args);
  }

  /** With no alternate name, the name of a built command is its first leaf, coerced. */
  lemma NameOfCall(ctx: Context, items: seq<Arg>)
    requires Call(ctx, items).Ok? && ctx.options.altName.None?
    ensures Leaves(items) != [] && Coerce(Leaves(items)[0]).Ok?
    ensures Name(Call(ctx, items).value) == Some(Coerce(Leaves(items)[0]).value)
  {
    CallResolvesLeaves(ctx, items);
  }

  /** The alternate name, once set, is the name, whatever other keywords the same `set` call gives. */
  lemma NameAfterAltName(cmd: Command, settings: seq<Setting>, k: nat, name: string)
    requires LastOccurrence(settings, k) && settings[k] == AltName(Some(name))
    ensures Name(Set(cmd, settings)) == Some(Text(name))
  {
    SetEachKeyword(cmd.options, settings, k);
  }

  /** Applying arguments, adding variables and redirecting keep the name. */
  lemma NameStable(cmd: Command, items: seq<Arg>, vars: map<string, EnvValue>, t: Target, append: bool)
    requires cmd.args != []
    ensures Apply(cmd, items).Ok? ==> Name(Apply(cmd, items).value) == Name(cmd)
    ensures Name(Env(cmd, vars)) == Name(cmd)
    ensures Name(Stdin(cmd, t)) == Name(cmd)
    ensures Stdout(cmd, t, append).Ok? ==> Name(Stdout(cmd, t, append).value) == Name(cmd)
    ensures Stderr(cmd, t, append).Ok? ==> Name(Stderr(cmd, t, append).value) == Name(cmd)
  {
  }
}
