/**
 * argparse_parse and its helpers of src/general/argparse.c, working in place on argv: the
 * strings kept are moved to the front of the array they are read from.
 */
module ArgParse {
  import opened ArgSpec
  import opened Options

  datatype Cell = NULL | Str(s: string)

  function Cells(ss: seq<string>): (cs: seq<Cell>)
    ensures |cs| == |ss| && forall i :: 0 <= i < |ss| ==> cs[i] == Str(ss[i])
  {
    seq(|ss|, i requires 0 <= i < |ss| => Str(ss[i]))
  }

  /** prefix_cmp: 0 exactly for a prefix. A string ends with a NUL, which differs from every character of it. */
  method PrefixCmp(str: string, prefix: string) returns (r: int)
    requires '\0' !in prefix
    ensures r == 0 <==> prefix <= str
  {
    var i := 0;
    while true
      invariant 0 <= i <= |prefix| && i <= |str| && prefix[..i] == str[..i]
      decreases |prefix| - i
    {
      if i == |prefix| { return 0; }
      var c := if i < |str| then str[i] else '\0';
      if c != prefix[i] {
        return prefix[i] as int - c as int;
      }
      i := i + 1;
    }
  }

  /** memmove to a lower, possibly overlapping place. */
  method MoveDown(cells: array<Cell>, dst: nat, src: nat, n: nat)
    requires dst <= src && src + n <= cells.Length
    modifies cells
    ensures cells[..dst] == old(cells[..dst]) && cells[dst..dst + n] == old(cells[src..src + n])
  {
    ghost var was := cells[..];
    for i := 0 to n
      invariant cells[..dst] == was[..dst]
      invariant cells[dst..dst + i] == was[src..src + i]
      invariant cells[dst + i..] == was[dst + i..]
    {
      assert cells[src + i] == cells[dst + i..][src - dst] == was[src + i];
      cells[dst + i] := cells[src + i];
      assert cells[dst..dst + i + 1] == cells[dst..dst + i] + [was[src + i]];
      assert cells[dst + i + 1..] == was[dst + i..][1..];
    }
  }

  class Parser {
    const cfg: Config
    const argv: array<Cell>
    ghost const input: seq<string>  // the arguments after the program name, as given
    var argc: nat
    var at: nat                     // self->argv - argv
    var cpidx: nat
    var env: Env                    // option values and optvalue

    /** The unread arguments are still in place, and writing never reaches them. */
    ghost predicate Valid()
      reads this, argv
    {
      && argv.Length == |input| + 2
      && at + argc == |input| + 1 && at >= 1 && cpidx < at
      && argv[at..] == Cells(input[at - 1..]) + [NULL]
    }

    constructor (cfg: Config, count: nat, argv: array<Cell>, ghost input: seq<string>, store: map<nat, Value>)
      requires count == |input| + 1 && argv.Length == count + 1 && argv[1..] == Cells(input) + [NULL]
      ensures Valid() && this.cfg == cfg && this.argv == argv && this.input == input
      ensures at == 1 && argc == |input| && cpidx == 0 && env == Env(store, None)
    {
      this.cfg, this.argv, this.input := cfg, argv, input;
      at, argc, cpidx, env := 1, count - 1, 0, Env(store, None);
      new;
      assert input[0..] == input;
    }

    /** The current argument and those after it. */
    ghost function Here(): string
      requires Valid() && argc > 0
      reads this, argv
    {
      input[at - 1]
    }

    ghost function Rest(): seq<string>
      requires Valid() && argc > 0
      reads this, argv
    {
      input[at..]
    }

    lemma CurrentCell()
      requires Valid() && argc > 0
      ensures argv[at] == Str(Here())
    {
      assert argv[at] == argv[at..][0];
      assert input[at - 1..][0] == input[at - 1];
    }

    /** self->argc--, self->argv++ */
    method Advance()
      requires Valid() && argc > 0
      modifies this`at, this`argc
      ensures Valid() && at == old(at) + 1 && argc == old(argc) - 1
    {
      assert argv[at..][1..] == argv[at + 1..];
      assert Cells(input[at - 1..])[1..] == Cells(input[at..]);
      at, argc := at + 1, argc - 1;
    }

    /** The text for an option with a value, from optvalue or the next argument. */
    method TakeText() returns (text: Option<string>)
      requires Valid() && argc > 0
      modifies this`at, this`argc, this`env
      ensures Valid() && text == ValueText(old(env), old(Rest()))
      ensures text.Some? ==> env == old(env).(optvalue := None) && argc > 0
      ensures at == old(at) + if text.Some? && old(env).optvalue == None then 1 else 0
    {
      if env.optvalue.Some? {
        text := env.optvalue;
        env := env.(optvalue := None);
      } else if argc > 1 {
        Advance();
        CurrentCell();
        text := Some(argv[at].s);
        env := env.(optvalue := None);
      } else {
        text := None;
      }
    }

    /** Keeps the current position of old arguments in step with what a spec call used. */
    ghost predicate Moved(oldAt: nat, used: nat)
      reads this
    {
      at == oldAt + used && argc > 0
    }

    /** argparse_getvalue: the switch on the type, then the callback. */
    method GetValue(opt: Opt, unset: bool) returns (exit: Option<Exit>, code: int)
      requires Valid() && argc > 0
      modifies this`at, this`argc, this`env
      ensures Valid()
      ensures match ArgSpec.GetValue(cfg, opt, unset, old(env), old(Rest()))
              case GotExit(e) => exit == Some(e)
              case Got(env', used, code') => exit == None && code == code' && env == env' && Moved(old(at), used)
    {
      hide ArgSpec.GetValue;
      CallbackLast(cfg, opt, unset, env, Rest());
      code := 0;
      if opt.slot.Some? {
        exit := SetValue(opt, opt.slot.value, unset);
        if exit.Some? { return; }
      }
      match opt.callback
      case NoCallback => return None, 0;
      case Returns(c) => return None, c;
      case Exits => return Some(CallbackExit), 0;
    }

    /** The switch on an option's type. */
    method SetValue(opt: Opt, slot: nat, unset: bool) returns (exit: Option<Exit>)
      requires Valid() && argc > 0 && opt.slot == Some(slot)
      modifies this`at, this`argc, this`env
      ensures Valid()
      ensures match ArgSpec.GetValue(cfg, opt.(callback := NoCallback), unset, old(env), old(Rest()))
              case GotExit(e) => exit == Some(e)
              case Got(env', used, _) => exit == None && env == env' && Moved(old(at), used)
    {
      hide Masked;
      match opt.typ {
        case Boolean =>
          var v := IntAt(env.store, slot) + if unset then -1 else 1;
          if v < 0 { v := 0; }
          env := env.(store := env.store[slot := IntV(v)]);
        case Bit =>
          env := env.(store := env.store[slot := IntV(Masked(IntAt(env.store, slot), opt.data, unset))]);
        case Group =>
          return Some(AssertionFailed);
        case Text =>
          var text := TakeText();
          if text == None { return Some(MissingValue); }
          env := env.(store := env.store[slot := TextV(text.value)]);
        case Integer =>
          exit := TakeNumber(slot, cfg.nums.strtol);
          return;
        case Float =>
          exit := TakeNumber(slot, cfg.nums.strtof);
          return;
      }
      return None;
    }

    /** The callback comes after the value is set. */
    lemma CallbackLast(cfg: Config, opt: Opt, unset: bool, env: Env, rest: seq<string>)
      ensures ArgSpec.GetValue(cfg, opt, unset, env, rest)
              == match ArgSpec.GetValue(cfg, opt.(callback := NoCallback), unset, env, rest)
                 case GotExit(e) => GotExit(e)
                 case Got(env', used, _) => Finish(opt, env', used)
      ensures opt.slot == None ==> ArgSpec.GetValue(cfg, opt.(callback := NoCallback), unset, env, rest) == Got(env, 0, 0)
    {
    }

    method TakeNumber(slot: nat, convert: string -> Number) returns (exit: Option<Exit>)
      requires Valid() && argc > 0
      modifies this`at, this`argc, this`env
      ensures Valid()
      ensures match ValueText(old(env), old(Rest()))
              case None => exit == Some(MissingValue)
              case Some(text) =>
                match convert(text)
                case Good(v) =>
                  && exit == None && env == Env(old(env).store[slot := v], None)
                  && Moved(old(at), if old(env).optvalue.Some? then 0 else 1)
                case OutOfRange => exit == Some(ValueOutOfRange)
                case Malformed => exit == Some(NotANumber)
    {
      var text := TakeText();
      if text == None { return Some(MissingValue); }
      match convert(text.value)
      case OutOfRange => return Some(ValueOutOfRange);
      case Malformed => return Some(NotANumber);
      case Good(v) =>
        env := env.(store := env.store[slot := v]);
        return None;
    }

    /** argparse_short_opt: one option off the pending text; -2 when nothing matches. */
    method ShortOpt() returns (exit: Option<Exit>, code: int)
      requires Valid() && argc > 0 && env.optvalue.Some? && env.optvalue.value != ""
      modifies this`at, this`argc, this`env
      ensures Valid()
      ensures var text := old(env).optvalue.value;
              match FindShort(cfg.opts, text[0])
              case None => exit == None && code == -2 && env == old(env) && Moved(old(at), 0)
              case Some(opt) =>
                var after := old(env).(optvalue := if |text| > 1 then Some(text[1..]) else None);
                match ArgSpec.GetValue(cfg, opt, false, after, old(Rest()))
                case GotExit(e) => exit == Some(e)
                case Got(env', used, code') => exit == None && code == code' && env == env' && Moved(old(at), used)
    {
      var text := env.optvalue.value;
      var i := 0;
      while i < |cfg.opts|
        invariant 0 <= i <= |cfg.opts| && env == old(env) && at == old(at) && argc == old(argc) && Valid()
        invariant FindShort(cfg.opts, text[0]) == FindShort(cfg.opts[i..], text[0])
      {
        assert cfg.opts[i..][1..] == cfg.opts[i + 1..];
        if cfg.opts[i].shortName == Some(text[0]) {
          env := env.(optvalue := if |text| > 1 then Some(text[1..]) else None);
          exit, code := GetValue(cfg.opts[i], false);
          return;
        }
        i := i + 1;
      }
      return None, -2;
    }

    /** The switch and while of the short-option branch. */
    method ShortBundle() returns (exit: Option<Exit>, unknown: bool)
      requires Valid() && argc > 0 && env.optvalue.Some? && env.optvalue.value != ""
      modifies this`at, this`argc, this`env
      ensures Valid()
      ensures match Bundle(cfg, old(env), old(Rest()))
              case DidExit(e) => exit == Some(e)
              case Did(env', used, unknown') => exit == None && unknown == unknown' && env == env' && Moved(old(at), used)
    {
      hide ArgSpec.GetValue;
      ghost var rest := Rest();
      var more := true;
      while more
        invariant Valid() && argc > 0 && at == old(at)
        invariant more && env.optvalue.Some? && env.optvalue.value != ""
        invariant Bundle(cfg, env, rest) == Bundle(cfg, old(env), rest)
        decreases |env.optvalue.value|
      {
        ghost var before := env;
        var code;
        exit, code := ShortOpt();
        ghost var opt := FindShort(cfg.opts, before.optvalue.value[0]);
        if exit.Some? { return exit, false; }
        if code == -2 { return None, true; }
        if env.optvalue == None { return None, false; }
        ghost var text := before.optvalue.value;
        PendingShrinks(cfg, opt.value, before.(optvalue := if |text| > 1 then Some(text[1..]) else None), rest);
      }
      return None, false;
    }

    /** The tests of argparse_long_opt on one table entry. */
    method TryOption(opt: Opt, word: string) returns (hit: Option<Hit>)
      ensures hit == TryLong(opt, word)
    {
      if opt.longName == None { return None; }
      var unset := false;
      var rest := PrefixSkip(word, opt.longName.value);
      if rest == None {
        if opt.noNeg { return None; }
        if opt.typ != Boolean && opt.typ != Bit { return None; }
        var cmp := PrefixCmp(word, "no-");
        if cmp != 0 { return None; }
        rest := PrefixSkip(word[3..], opt.longName.value);
        if rest == None { return None; }
        unset := true;
      }
      if rest.value != "" {
        if rest.value[0] != '=' { return None; }
        return Some(Hit(opt, unset, Some(rest.value[1..])));
      }
      return Some(Hit(opt, unset, None));
    }

    /** argparse_long_opt; `word` is the argument without its dashes. */
    method LongOpt(word: string) returns (exit: Option<Exit>, unknown: bool)
      requires Valid() && argc > 0
      modifies this`at, this`argc, this`env
      ensures Valid()
      ensures match Long(cfg, word, old(env), old(Rest()))
              case DidExit(e) => exit == Some(e)
              case Did(env', used, unknown') => exit == None && unknown == unknown' && env == env' && Moved(old(at), used)
    {
      var i := 0;
      while i < |cfg.opts|
        invariant 0 <= i <= |cfg.opts| && env == old(env) && at == old(at) && argc == old(argc) && Valid()
        invariant FindLong(cfg.opts, word) == FindLong(cfg.opts[i..], word)
      {
        assert cfg.opts[i..][1..] == cfg.opts[i + 1..];
        var hit := TryOption(cfg.opts[i], word);
        if hit.Some? {
          if hit.value.given.Some? { env := env.(optvalue := hit.value.given); }
          var code;
          exit, code := GetValue(hit.value.opt, hit.value.unset);
          return exit, code == -2;
        }
        i := i + 1;
      }
      return None, true;
    }

    /** One option word other than `--`. */
    method OneWord(arg: string) returns (exit: Option<Exit>, unknown: bool)
      requires Valid() && argc > 0 && arg == Here() && IsOption(arg) && arg != "--"
      modifies this`at, this`argc, this`env
      ensures Valid()
      ensures match Word(cfg, arg, old(env), old(Rest()))
              case DidExit(e) => exit == Some(e)
              case Did(env', used, unknown') => exit == None && unknown == unknown' && env == env' && Moved(old(at), used)
    {
      if arg[1] != '-' {
        env := env.(optvalue := Some(arg[1..]));
        exit, unknown := ShortBundle();
      } else {
        exit, unknown := LongOpt(arg[2..]);
      }
    }

    /** The kept strings are what the roles given so far select. */
    ghost predicate Kept(roles: seq<Role>)
      requires Valid() && |roles| == at - 1
      reads this, argv
    {
      argv[..cpidx] == Cells(Select(input[..at - 1], roles))
    }

    /** self->out[self->cpidx++] = self->argv[0], and on to the next argument. */
    method KeepHere(ghost roles: seq<Role>)
      requires Valid() && argc > 0 && |roles| == at - 1 && Kept(roles)
      modifies this`at, this`argc, this`cpidx, argv
      ensures Valid() && at == old(at) + 1 && Kept(roles + [Positional])
    {
      hide Select;
      CurrentCell();
      ghost var arg, kept := Here(), Select(input[..at - 1], roles);
      assert input[..at] == input[..at - 1] + [arg];
      SelectConcat(input[..at - 1], roles, [arg], [Positional]);
      SelectOne(arg);
      ghost var below, after := argv[..cpidx], argv[at + 1..];
      assert after == argv[at..][1..] && Cells(input[at - 1..])[1..] == Cells(input[at..]);
      argv[cpidx] := argv[at];
      cpidx := cpidx + 1;
      assert argv[..cpidx] == below + [Str(arg)] == Cells(kept + [arg]);
      assert argv[at + 1..] == after;
      StepOver();
    }

    lemma SelectOne(arg: string)
      ensures Select([arg], [Positional]) == [arg]
    {
      assert [arg][1..] == [];
      assert Select([], []) == [];
    }

    /** Advance when the cell under the write index may be the current one. */
    method StepOver()
      requires argc > 0 && argv.Length == |input| + 2 && at + argc == |input| + 1 && 1 <= at && cpidx <= at
      requires argv[at + 1..] == Cells(input[at..]) + [NULL]
      modifies this`at, this`argc
      ensures Valid() && at == old(at) + 1 && argc == old(argc) - 1
    {
      at, argc := at + 1, argc - 1;
    }

    /** Steps past an option word whose values have been taken. */
    method PassWord(ghost roles: seq<Role>, ghost start: nat, ghost used: nat)
      requires Valid() && argc > 0 && start >= 1 && |roles| == start - 1 && at == start + used
      requires argv[..cpidx] == Cells(Select(input[..start - 1], roles))
      modifies this`at, this`argc
      ensures Valid() && at == old(at) + 1 && argc == old(argc) - 1
      ensures |roles + [OptionWord] + Repeat(OptionValue, used)| == at - 1
      ensures Kept(roles + [OptionWord] + Repeat(OptionValue, used))
    {
      hide Select;
      ghost var more := [OptionWord] + Repeat(OptionValue, used);
      assert input[..at] == input[..start - 1] + input[start - 1..at];
      SelectConcat(input[..start - 1], roles, input[start - 1..at], more);
      SelectNone(input[start - 1..at], more);
      Advance();
      assert roles + [OptionWord] + Repeat(OptionValue, used) == roles + more;
      assert Select(input[..start - 1], roles) + [] == Select(input[..start - 1], roles);
    }

    lemma BeforeBefore(a: seq<Role>, b: seq<Role>, o: Outcome)
      ensures Before(a, Before(b, o)) == Before(a + b, o)
    {
      if o.Parsed? {
        assert a + (b + o.roles) == a + b + o.roles;
      }
    }

    /** Between arguments: the whole parse is what the roles so far leave to be parsed. */
    ghost predicate Pending(goal: Outcome, roles: seq<Role>)
      requires Valid()
      reads this, argv
    {
      |roles| == at - 1 && Kept(roles) && goal == Before(roles, Parse(cfg, input[at - 1..], env))
    }

    lemma Unread()
      requires Valid() && argc > 0
      ensures var left := input[at - 1..]; left != [] && left[0] == Here() && left[1..] == Rest() && |left| == argc
    {
    }

    /** A non-option argument is kept. */
    method PassPositional(ghost goal: Outcome, ghost roles: seq<Role>)
      requires Valid() && argc > 0 && Pending(goal, roles) && !IsOption(Here()) && !cfg.stopAtNonOption
      modifies this`at, this`argc, this`cpidx, argv
      ensures Valid() && argc == old(argc) - 1 && Pending(goal, roles + [Positional])
    {
      hide Select;
      Unread();
      BeforeBefore(roles, [Positional], Parse(cfg, Rest(), env));
      KeepHere(roles);
    }

    /** An option word is carried out and dropped, with the values it used. */
    method PassOption(arg: string, ghost goal: Outcome, ghost roles: seq<Role>)
      returns (exit: Option<Exit>, ghost roles': seq<Role>)
      requires Valid() && argc > 0 && Pending(goal, roles) && arg == Here() && IsOption(arg) && arg != "--"
      modifies this`at, this`argc, this`env
      ensures match exit
              case Some(e) => goal == Exited(e)
              case None => Valid() && argc < old(argc) && Pending(goal, roles')
    {
      hide Select, Word;
      Unread();
      roles' := roles;
      ghost var left, start := input[at - 1..], at;
      ghost var d := Word(cfg, arg, env, Rest());
      ghost var outcome := Parse(cfg, left, env);
      var unknown;
      exit, unknown := OneWord(arg);
      if exit.Some? { return; }
      if unknown && !cfg.ignoreUnknown { return Some(UnknownOption), roles; }
      assert left[1 + d.used..] == input[at..];
      assert outcome == Before([OptionWord] + Repeat(OptionValue, d.used), Parse(cfg, input[at..], env));
      BeforeBefore(roles, [OptionWord] + Repeat(OptionValue, d.used), Parse(cfg, input[at..], env));
      PassWord(roles, start, d.used);
      roles' := roles + [OptionWord] + Repeat(OptionValue, d.used);
      assert roles' == roles + ([OptionWord] + Repeat(OptionValue, d.used));
    }

    /** The scanning loop up to the label `end`: what is still unread then is the tail. */
    method Scan() returns (exit: Option<Exit>, ghost roles: seq<Role>)
      requires Valid() && at == 1 && cpidx == 0
      modifies this, argv
      ensures match exit
              case Some(e) => Parse(cfg, input, old(env)) == Exited(e)
              case None =>
                && Valid() && |roles| == at - 1 && Kept(roles)
                && Parse(cfg, input, old(env)) == Parsed(roles + Repeat(Tail, argc), env)
    {
      hide Select, Word;
      roles := [];
      ghost var goal := Parse(cfg, input, env);
      assert Pending(goal, []) by {
        assert input[0..] == input && input[..0] == [] && argv[..0] == [];
        BeforeNothing(goal);
        SelectEmpty();
      }
      while argc > 0
        invariant Valid() && Pending(goal, roles)
        decreases argc
      {
        CurrentCell();
        Unread();
        var arg := argv[at].s;
        if !IsOption(arg) {
          if cfg.stopAtNonOption { return None, roles; }
          PassPositional(goal, roles);
          roles := roles + [Positional];
          continue;
        }
        if arg == "--" {
          PassTerminator(roles);
          assert roles + ([Terminator] + Repeat(Tail, argc)) == roles + [Terminator] + Repeat(Tail, argc);
          return None, roles + [Terminator];
        }
        exit, roles := PassOption(arg, goal, roles);
        if exit.Some? { return; }
      }
      assert input[at - 1..] == [] && Repeat(Tail, 0) == [];
      return None, roles;
    }

    lemma BeforeNothing(o: Outcome)
      ensures Before([], o) == o
    {
      if o.Parsed? { assert [] + o.roles == o.roles; }
    }

    lemma SelectEmpty()
      ensures Select([], []) == []
    {
    }

    method PassTerminator(ghost roles: seq<Role>)
      requires Valid() && argc > 0 && |roles| == at - 1 && Kept(roles)
      modifies this`at, this`argc
      ensures Valid() && at == old(at) + 1 && argc == old(argc) - 1 && Kept(roles + [Terminator])
    {
      hide Select;
      assert input[..at] == input[..at - 1] + [input[at - 1]];
      SelectConcat(input[..at - 1], roles, [input[at - 1]], [Terminator]);
      SelectNone([input[at - 1]], [Terminator]);
      assert Select(input[..at - 1], roles) + [] == Select(input[..at - 1], roles);
      Advance();
    }

    /** argparse_parse: an exit, or the number of arguments left at the front of argv, NULL-terminated. */
    method ParseAll() returns (exit: Option<Exit>, count: nat)
      requires Valid() && at == 1 && cpidx == 0
      modifies this, argv
      ensures match Parse(cfg, input, old(env))
              case Exited(e) => exit == Some(e)
              case Parsed(roles, env') =>
                && exit == None && env == env'
                && count < argv.Length && argv[..count] == Cells(Select(input, roles)) && argv[count] == NULL
    {
      hide Select, Parse;
      ghost var roles;
      exit, roles := Scan();
      if exit.Some? { return exit, 0; }
      SelectSplit(input, at - 1, roles);
      count := CloseUp(Select(input[..at - 1], roles));
    }

    lemma SelectSplit(args: seq<string>, n: nat, roles: seq<Role>)
      requires n == |roles| <= |args|
      ensures Select(args, roles + Repeat(Tail, |args| - n)) == Select(args[..n], roles) + args[n..]
    {
      hide Select;
      assert args == args[..n] + args[n..];
      SelectConcat(args[..n], roles, args[n..], Repeat(Tail, |args| - n));
      SelectTail(args[n..]);
    }

    /** The label `end`: the tail joins what was kept, and a NULL closes the vector. */
    method CloseUp(ghost kept: seq<string>) returns (count: nat)
      requires Valid() && argv[..cpidx] == Cells(kept)
      modifies argv
      ensures count < argv.Length && argv[count] == NULL
      ensures argv[..count] == Cells(kept + input[at - 1..])
    {
      hide Cells;
      TailCells();
      CellsConcat(kept, input[at - 1..]);
      MoveDown(argv, cpidx, at, argc);
      count := cpidx + argc;
      assert argv[..count] == argv[..cpidx] + argv[cpidx..count];
      argv[count] := NULL;
    }

    lemma TailCells()
      requires Valid()
      ensures argv[at..at + argc] == Cells(input[at - 1..])
    {
      assert argv[at..at + argc] == argv[at..][..argc];
    }

    lemma CellsConcat(a: seq<string>, b: seq<string>)
      ensures Cells(a) + Cells(b) == Cells(a + b)
    {
    }
  }
}
