/**
 * A pure option parser with the matching rules of src/general/argparse.c, working on the
 * original arguments: it says what each argument is used as, and what the option values
 * become. Number parsing is a parameter; exit() is an outcome.
 */
module ArgSpec {
  import opened Bits
  import opened Options

  datatype OptType = Group | Boolean | Bit | Integer | Float | Text

  /** What an option's callback does: nothing, return a code, or end the process. */
  datatype Callback = NoCallback | Returns(code: int) | Exits

  datatype Opt = Opt(
    typ: OptType, shortName: Option<char>, longName: Option<string>, slot: Option<nat>,
    data: nat, noNeg: bool, callback: Callback)

  datatype Value = IntV(i: int) | TextV(s: string) | FloatV(text: string)

  datatype Number = Good(value: Value) | OutOfRange | Malformed

  /** strtol and strtof as the code uses them. */
  datatype Numbers = Numbers(strtol: string -> Number, strtof: string -> Number)

  datatype Exit = MissingValue | ValueOutOfRange | NotANumber | UnknownOption | CallbackExit | AssertionFailed

  datatype Config = Config(opts: seq<Opt>, nums: Numbers, stopAtNonOption: bool, ignoreUnknown: bool)

  /** The values pointed at by the options, and the parser's pending option value. */
  datatype Env = Env(store: map<nat, Value>, optvalue: Option<string>)

  // ------------------------------------------------------------ option values

  function IntAt(store: map<nat, Value>, slot: nat): int {
    if slot in store && store[slot].IntV? then store[slot].i else 0
  }

  /** The two's complement image of an int, and back. */
  function ToBits(i: int): nat { i % WORD }

  function FromBits(w: nat): int { if w % WORD < WORD / 2 then w % WORD else w % WORD - WORD }

  function Counted(i: int, unset: bool): int {
    var v := if unset then i - 1 else i + 1;
    if v < 0 then 0 else v
  }

  function Masked(i: int, data: nat, unset: bool): int {
    if unset then FromBits(And(ToBits(i), WORD - 1 - data % WORD)) else FromBits(Or(ToBits(i), data % WORD))
  }

  datatype Got = GotExit(e: Exit) | Got(env: Env, used: nat, code: int)

  function Finish(opt: Opt, env: Env, used: nat): Got {
    match opt.callback
    case NoCallback => Got(env, used, 0)
    case Returns(code) => Got(env, used, code)
    case Exits => GotExit(CallbackExit)
  }

  /** The text an option with a value takes: the pending one, or else the next argument. */
  function ValueText(env: Env, rest: seq<string>): Option<string> {
    if env.optvalue.Some? then env.optvalue else if rest != [] then Some(rest[0]) else None
  }

  /** Takes a value's text, converts it and stores the result; a pending text is used up. */
  function Taken(opt: Opt, env: Env, rest: seq<string>, convert: string -> Number): (g: Got)
    requires opt.slot.Some?
    ensures g.Got? ==> g.used <= |rest| && g.used <= 1
  {
    match ValueText(env, rest)
    case None => GotExit(MissingValue)
    case Some(text) =>
      match convert(text)
      case Good(v) =>
        Finish(opt, Env(env.store[opt.slot.value := v], None), if env.optvalue.Some? then 0 else 1)
      case OutOfRange => GotExit(ValueOutOfRange)
      case Malformed => GotExit(NotANumber)
  }

  /** argparse_getvalue; `rest` are the arguments after the current one. */
  function GetValue(cfg: Config, opt: Opt, unset: bool, env: Env, rest: seq<string>): (g: Got)
    ensures g.Got? ==> g.used <= |rest| && g.used <= 1
  {
    if opt.slot == None then Finish(opt, env, 0) else
    var slot := opt.slot.value;
    match opt.typ
    case Boolean => Finish(opt, env.(store := env.store[slot := IntV(Counted(IntAt(env.store, slot), unset))]), 0)
    case Bit => Finish(opt, env.(store := env.store[slot := IntV(Masked(IntAt(env.store, slot), opt.data, unset))]), 0)
    case Group => GotExit(AssertionFailed)
    case Text => Taken(opt, env, rest, text => Good(TextV(text)))
    case Integer => Taken(opt, env, rest, cfg.nums.strtol)
    case Float => Taken(opt, env, rest, cfg.nums.strtof)
  }

  // ------------------------------------------------------------ matching

  /** The first option with this short name. */
  function FindShort(opts: seq<Opt>, c: char): Option<Opt> {
    if opts == [] then None
    else if opts[0].shortName == Some(c) then Some(opts[0])
    else FindShort(opts[1..], c)
  }

  /** prefix_skip */
  function PrefixSkip(s: string, prefix: string): Option<string> {
    if prefix <= s then Some(s[|prefix|..]) else None
  }

  /** A long option found: whether negated, and the text after '=' if any. */
  datatype Hit = Hit(opt: Opt, unset: bool, given: Option<string>)

  function Accept(opt: Opt, unset: bool, rest: string): Option<Hit> {
    if rest == "" then Some(Hit(opt, unset, None))
    else if rest[0] == '=' then Some(Hit(opt, unset, Some(rest[1..])))
    else None
  }

  predicate Negatable(opt: Opt) { !opt.noNeg && (opt.typ == Boolean || opt.typ == Bit) }

  function TryLong(opt: Opt, word: string): Option<Hit> {
    if opt.longName == None then None else
    var name := opt.longName.value;
    if name <= word then Accept(opt, false, word[|name|..])
    else if Negatable(opt) && "no-" <= word && name <= word[3..] then Accept(opt, true, word[3..][|name|..])
    else None
  }

  /** The first option this long word, without its dashes, names. */
  function FindLong(opts: seq<Opt>, word: string): Option<Hit> {
    if opts == [] then None
    else if TryLong(opts[0], word).Some? then TryLong(opts[0], word)
    else FindLong(opts[1..], word)
  }

  // ------------------------------------------------------------ one option word

  /** What one option word did. `unknown` sends the caller to its unknown-option branch. */
  datatype Did = DidExit(e: Exit) | Did(env: Env, used: nat, unknown: bool)

  /** A bundle of short options, from the pending text on. */
  function Bundle(cfg: Config, env: Env, rest: seq<string>): (d: Did)
    requires env.optvalue.Some? && env.optvalue.value != ""
    ensures d.Did? ==> d.used <= |rest|
    decreases |env.optvalue.value|
  {
    var text := env.optvalue.value;
    var found := FindShort(cfg.opts, text[0]);
    if found == None then Did(env, 0, true)
    else
      var after := env.(optvalue := if |text| > 1 then Some(text[1..]) else None);
      var g := GetValue(cfg, found.value, false, after, rest);
      if g.GotExit? then DidExit(g.e)
      else if g.code == -2 then Did(g.env, g.used, true)
      else if g.env.optvalue == None then Did(g.env, g.used, false)
      else
        PendingShrinks(cfg, found.value, after, rest);
        Bundle(cfg, g.env, rest)
  }

  /** A pending value either stays, and then no argument was used, or is taken. */
  lemma PendingShrinks(cfg: Config, opt: Opt, env: Env, rest: seq<string>)
    ensures var g := GetValue(cfg, opt, false, env, rest);
            g.Got? && g.env.optvalue.Some? ==> g.env.optvalue == env.optvalue && g.used == 0
  {
  }

  function Long(cfg: Config, word: string, env: Env, rest: seq<string>): (d: Did)
    ensures d.Did? ==> d.used <= |rest|
  {
    var found := FindLong(cfg.opts, word);
    if found == None then Did(env, 0, true)
    else
      var hit := found.value;
      var e := if hit.given.Some? then env.(optvalue := hit.given) else env;
      var g := GetValue(cfg, hit.opt, hit.unset, e, rest);
      if g.GotExit? then DidExit(g.e) else Did(g.env, g.used, g.code == -2)
  }

  predicate IsOption(arg: string) { |arg| >= 2 && arg[0] == '-' }

  function Word(cfg: Config, arg: string, env: Env, rest: seq<string>): (d: Did)
    requires IsOption(arg) && arg != "--"
    ensures d.Did? ==> d.used <= |rest|
  {
    if arg[1] != '-' then Bundle(cfg, env.(optvalue := Some(arg[1..])), rest) else Long(cfg, arg[2..], env, rest)
  }

  // ------------------------------------------------------------ the whole command line

  /** What an argument is used as. */
  datatype Role = Positional | OptionWord | OptionValue | Terminator | Tail

  datatype Outcome = Exited(e: Exit) | Parsed(roles: seq<Role>, env: Env)

  function Repeat(r: Role, n: nat): (s: seq<Role>)
    ensures |s| == n
  {
    seq(n, _ => r)
  }

  function Before(roles: seq<Role>, o: Outcome): Outcome {
    if o.Exited? then o else Parsed(roles + o.roles, o.env)
  }

  function Parse(cfg: Config, args: seq<string>, env: Env): (o: Outcome)
    ensures o.Parsed? ==> |o.roles| == |args|
    decreases args
  {
    if args == [] then Parsed([], env)
    else if !IsOption(args[0]) then
      if cfg.stopAtNonOption then Parsed(Repeat(Tail, |args|), env)
      else Before([Positional], Parse(cfg, args[1..], env))
    else if args[0] == "--" then Parsed([Terminator] + Repeat(Tail, |args| - 1), env)
    else
      var d := Word(cfg, args[0], env, args[1..]);
      if d.DidExit? then Exited(d.e)
      else if d.unknown && !cfg.ignoreUnknown then Exited(UnknownOption)
      else Before([OptionWord] + Repeat(OptionValue, d.used), Parse(cfg, args[1 + d.used..], d.env))
  }

  /** The arguments the caller gets back: positionals and tail, in order. */
  function Select(args: seq<string>, roles: seq<Role>): seq<string>
    requires |args| == |roles|
  {
    if args == [] then []
    else (if roles[0] == Positional || roles[0] == Tail then [args[0]] else []) + Select(args[1..], roles[1..])
  }

  // ------------------------------------------------------------ what the roles mean

  /** Every role is earned: positionals look like arguments, options like options, a value follows its option
      word, and the tail is what follows `--`, or all from the first non-option on when parsing stops there. */
  ghost predicate RolesEarned(cfg: Config, args: seq<string>, roles: seq<Role>)
    requires |args| == |roles|
  {
    forall i :: 0 <= i < |roles| ==> RoleEarned(cfg, args, roles, i)
  }

  ghost predicate RoleEarned(cfg: Config, args: seq<string>, roles: seq<Role>, i: nat)
    requires |args| == |roles| && i < |roles|
  {
    match roles[i]
    case Positional => !IsOption(args[i]) && !cfg.stopAtNonOption
    case OptionWord => IsOption(args[i]) && args[i] != "--"
    case OptionValue => i > 0 && roles[i - 1] == OptionWord
    case Terminator => args[i] == "--" && forall j :: i < j < |roles| ==> roles[j] == Tail
    case Tail =>
      || (i > 0 && roles[i - 1] in {Terminator, Tail})
      || (cfg.stopAtNonOption && !IsOption(args[i]) && forall j :: i < j < |roles| ==> roles[j] == Tail)
  }

  lemma EarnedBefore(cfg: Config, args: seq<string>, first: seq<Role>, rest: seq<Role>)
    requires |args| == |first| + |rest| && RolesEarned(cfg, args[|first|..], rest)
    requires forall i :: 0 <= i < |first| ==> first[i] in {Positional, OptionWord, OptionValue}
    requires RolesEarned(cfg, args[..|first|], first)
    requires |rest| > 0 ==> rest[0] != OptionValue
    ensures RolesEarned(cfg, args, first + rest)
  {
    var roles, n := first + rest, |first|;
    forall i | 0 <= i < |roles|
      ensures RoleEarned(cfg, args, roles, i)
    {
      if i < n {
        assert RoleEarned(cfg, args[..n], first, i);
      } else {
        assert RoleEarned(cfg, args[n..], rest, i - n);
        assert forall j :: i < j < |roles| ==> roles[j] == rest[j - n];
      }
    }
  }

  lemma {:induction false} UsedAtMostOne(cfg: Config, env: Env, rest: seq<string>)
    requires env.optvalue.Some? && env.optvalue.value != ""
    ensures var d := Bundle(cfg, env, rest); d.Did? ==> d.used <= 1
    decreases |env.optvalue.value|
  {
    var text := env.optvalue.value;
    var found := FindShort(cfg.opts, text[0]);
    if found.Some? {
      var after := env.(optvalue := if |text| > 1 then Some(text[1..]) else None);
      var g := GetValue(cfg, found.value, false, after, rest);
      if g.Got? && g.code != -2 && g.env.optvalue.Some? {
        PendingShrinks(cfg, found.value, after, rest);
        UsedAtMostOne(cfg, g.env, rest);
      }
    }
  }

  lemma WordUses(cfg: Config, arg: string, env: Env, rest: seq<string>)
    requires IsOption(arg) && arg != "--"
    ensures var d := Word(cfg, arg, env, rest); d.Did? ==> d.used <= 1
  {
    if arg[1] != '-' {
      UsedAtMostOne(cfg, env.(optvalue := Some(arg[1..])), rest);
    }
  }

  lemma WordEarned(cfg: Config, args: seq<string>, used: nat)
    requires |args| == 1 + used && used <= 1 && IsOption(args[0]) && args[0] != "--"
    ensures RolesEarned(cfg, args, [OptionWord] + Repeat(OptionValue, used))
  {
  }

  /** Each argument ends up in exactly the role its place on the command line earns. */
  lemma {:induction false} ParseRoles(cfg: Config, args: seq<string>, env: Env)
    requires Parse(cfg, args, env).Parsed?
    ensures RolesEarned(cfg, args, Parse(cfg, args, env).roles)
    ensures args != [] ==> Parse(cfg, args, env).roles[0] != OptionValue
    decreases args
  {
    hide Word;
    if args == [] {
    } else if !IsOption(args[0]) {
      if !cfg.stopAtNonOption {
        ParseRoles(cfg, args[1..], env);
        EarnedBefore(cfg, args, [Positional], Parse(cfg, args[1..], env).roles);
      }
    } else if args[0] != "--" {
      var d := Word(cfg, args[0], env, args[1..]);
      var more := args[1 + d.used..];
      WordUses(cfg, args[0], env, args[1..]);
      ParseRoles(cfg, more, d.env);
      WordEarned(cfg, args[..1 + d.used], d.used);
      hide RolesEarned;
      EarnedBefore(cfg, args, [OptionWord] + Repeat(OptionValue, d.used), Parse(cfg, more, d.env).roles);
    }
  }

  lemma {:induction false} SelectConcat(a1: seq<string>, r1: seq<Role>, a2: seq<string>, r2: seq<Role>)
    requires |a1| == |r1| && |a2| == |r2|
    ensures Select(a1 + a2, r1 + r2) == Select(a1, r1) + Select(a2, r2)
    decreases |a1|
  {
    if a1 == [] {
      assert a1 + a2 == a2 && r1 + r2 == r2;
    } else {
      assert (a1 + a2)[1..] == a1[1..] + a2 && (r1 + r2)[1..] == r1[1..] + r2;
      SelectConcat(a1[1..], r1[1..], a2, r2);
    }
  }

  lemma {:induction false} SelectTail(args: seq<string>)
    ensures Select(args, Repeat(Tail, |args|)) == args
  {
    if args == [] {
    } else {
      assert Repeat(Tail, |args|)[1..] == Repeat(Tail, |args| - 1);
      SelectTail(args[1..]);
    }
  }

  lemma {:induction false} SelectNone(args: seq<string>, roles: seq<Role>)
    requires |args| == |roles| && forall i :: 0 <= i < |roles| ==> roles[i] in {OptionWord, OptionValue, Terminator}
    ensures Select(args, roles) == []
  {
    if args == [] {
    } else {
      SelectNone(args[1..], roles[1..]);
    }
  }

  // ------------------------------------------------------------ bundles

  /** What the caller sees: the exit, or the returned arguments and the option values. */
  datatype Seen = SeenExit(e: Exit) | Seen(out: seq<string>, env: Env)

  function See(cfg: Config, args: seq<string>, env: Env): Seen {
    var o := Parse(cfg, args, env);
    if o.Exited? then SeenExit(o.e) else Seen(Select(args, o.roles), o.env)
  }

  /** `c` names an option that takes no value and whose callback does not report an unknown option. */
  predicate FlagChar(cfg: Config, c: char) {
    c != '-' &&
    var found := FindShort(cfg.opts, c);
    && found.Some? && found.value.callback != Returns(-2)
    && (found.value.slot == None || found.value.typ in {Boolean, Bit})
  }

  function Separate(flags: string): seq<string> {
    if flags == "" then [] else [['-', flags[0]]] + Separate(flags[1..])
  }

  /** A flag changes the values the same way whatever is pending, and leaves it pending. */
  lemma FlagIgnoresPending(cfg: Config, c: char, env: Env, pending: Option<string>, rest: seq<string>)
    requires FlagChar(cfg, c)
    ensures var opt := FindShort(cfg.opts, c).value;
            var g, h := GetValue(cfg, opt, false, env.(optvalue := None), rest),
                        GetValue(cfg, opt, false, env.(optvalue := pending), rest);
            if g.GotExit? then h == g
            else h == Got(g.env.(optvalue := pending), 0, g.code) && g.code != -2 && g.used == 0
                 && g.env.optvalue == None
  {
  }

  lemma SeeOneFlag(cfg: Config, c: char, rest: seq<string>, env: Env)
    requires FlagChar(cfg, c)
    ensures var g := GetValue(cfg, FindShort(cfg.opts, c).value, false, env.(optvalue := None), rest);
            See(cfg, [['-', c]] + rest, env) == if g.GotExit? then SeenExit(g.e) else See(cfg, rest, g.env)
  {
    var args := [['-', c]] + rest;
    var arg := args[0];
    assert args[1..] == rest && arg[1..] == [c] && arg != "--";
    FlagIgnoresPending(cfg, c, env, None, rest);
    var g := GetValue(cfg, FindShort(cfg.opts, c).value, false, env.(optvalue := None), rest);
    var d := Word(cfg, arg, env, rest);
    assert d == if g.GotExit? then DidExit(g.e) else Did(g.env, 0, false);
    if g.Got? {
      SeeAfterWord(cfg, args, env, d);
    }
  }

  /** After an option word that used no argument, known or ignored, the rest of the line is parsed as if it stood alone. */
  lemma SeeAfterWord(cfg: Config, args: seq<string>, env: Env, d: Did)
    requires args != [] && IsOption(args[0]) && args[0] != "--"
    requires d == Word(cfg, args[0], env, args[1..]) && d.Did? && d.used == 0 && (d.unknown ==> cfg.ignoreUnknown)
    ensures See(cfg, args, env) == See(cfg, args[1..], d.env)
  {
    hide Word;
    var o := Parse(cfg, args[1..], d.env);
    assert args[1 + 0..] == args[1..];
    assert Repeat(OptionValue, 0) == [];
    if o.Parsed? {
      assert ([OptionWord] + Repeat(OptionValue, 0) + o.roles)[1..] == o.roles;
    }
  }

  /** Bundled flags behave as the same flags given one by one: same values, same returned arguments, same exits. */
  lemma {:induction false} BundleIsSeparate(cfg: Config, flags: string, rest: seq<string>, env: Env)
    requires flags != "" && forall i :: 0 <= i < |flags| ==> FlagChar(cfg, flags[i])
    ensures See(cfg, ["-" + flags] + rest, env) == See(cfg, Separate(flags) + rest, env)
    decreases |flags|
  {
    var c := flags[0];
    var g := GetValue(cfg, FindShort(cfg.opts, c).value, false, env.(optvalue := None), rest);
    FlagIgnoresPending(cfg, c, env, None, rest);
    SeeOneFlag(cfg, c, rest, env);
    if |flags| == 1 {
      assert flags == [c] && flags[1..] == "";
      assert "-" + flags == ['-', c];
      assert Separate(flags) + rest == [['-', c]] + rest;
    } else {
      SplitBundle(cfg, flags, rest, env);
      var more := Separate(flags[1..]) + rest;
      assert Separate(flags) + rest == [['-', c]] + more;
      SeeOneFlag(cfg, c, more, env);
      FlagIgnoresRest(cfg, c, env, rest, more);
      if g.Got? {
        BundleIsSeparate(cfg, flags[1..], rest, g.env);
      }
    }
  }

  lemma FlagIgnoresRest(cfg: Config, c: char, env: Env, r1: seq<string>, r2: seq<string>)
    requires FlagChar(cfg, c)
    ensures GetValue(cfg, FindShort(cfg.opts, c).value, false, env, r1)
         == GetValue(cfg, FindShort(cfg.opts, c).value, false, env, r2)
  {
  }

  /** The first flag of a bundle can be taken off it. */
  lemma SplitBundle(cfg: Config, flags: string, rest: seq<string>, env: Env)
    requires |flags| >= 2 && forall i :: 0 <= i < |flags| ==> FlagChar(cfg, flags[i])
    ensures FlagChar(cfg, flags[0])
    ensures var g := GetValue(cfg, FindShort(cfg.opts, flags[0]).value, false, env.(optvalue := None), rest);
            See(cfg, ["-" + flags] + rest, env)
            == if g.GotExit? then SeenExit(g.e) else See(cfg, ["-" + flags[1..]] + rest, g.env)
  {
    var c := flags[0];
    var opt := FindShort(cfg.opts, c).value;
    var g := GetValue(cfg, opt, false, env.(optvalue := None), rest);
    FlagIgnoresPending(cfg, c, env, Some(flags[1..]), rest);
    var whole, tail := ["-" + flags] + rest, ["-" + flags[1..]] + rest;
    assert whole[0][1..] == flags && tail[0][1..] == flags[1..];
    assert whole[1..] == rest && tail[1..] == rest;
    assert flags[1] != '-' by { assert FlagChar(cfg, flags[1]); }
    assert whole[0] != "--" && tail[0] != "--" && whole[0][1] == c && tail[0][1] == flags[1];
    var e := env.(optvalue := Some(flags));
    assert e.(optvalue := Some(flags[1..])) == env.(optvalue := Some(flags[1..]));
    if g.Got? {
      assert Word(cfg, whole[0], env, rest) == Bundle(cfg, g.env.(optvalue := Some(flags[1..])), rest)
          == Word(cfg, tail[0], g.env, rest);
      SameWordSameSee(cfg, whole, env, tail, g.env);
    }
  }

  lemma SameWordSameSee(cfg: Config, a: seq<string>, e: Env, b: seq<string>, f: Env)
    requires a != [] && b != [] && a[1..] == b[1..]
    requires IsOption(a[0]) && a[0] != "--" && IsOption(b[0]) && b[0] != "--"
    requires Word(cfg, a[0], e, a[1..]) == Word(cfg, b[0], f, b[1..])
    ensures See(cfg, a, e) == See(cfg, b, f)
  {
    hide Word;
    var d := Word(cfg, a[0], e, a[1..]);
    if d.Did? {
      assert a[1 + d.used..] == a[1..][d.used..] == b[1 + d.used..];
      var oa, ob := Parse(cfg, a, e), Parse(cfg, b, f);
      if oa.Parsed? {
        assert oa.roles == ob.roles && oa.roles[0] == OptionWord;
      }
    }
  }

  // ------------------------------------------------------------ the pending value

  /** The option takes a value: a pending one, or the next argument. */
  predicate TakesValue(opt: Opt) { opt.slot.Some? && opt.typ in {Integer, Float, Text} }

  /** The first i letters of a bundle all name flags, none of which ends the bundle. */
  predicate FlagsBefore(cfg: Config, text: string, i: nat)
    requires i <= |text|
  {
    forall j :: 0 <= j < i ==>
      var found := FindShort(cfg.opts, text[j]);
      found.Some? && !TakesValue(found.value) && found.value.callback != Returns(-2)
  }

  /** The bundle is abandoned at letter i with text left over: the letter is unknown, or is a flag whose
      callback reports an unknown option with more letters to come. */
  predicate AbandonedAt(cfg: Config, text: string, i: nat)
    requires i < |text|
  {
    && FlagsBefore(cfg, text, i)
    && var found := FindShort(cfg.opts, text[i]);
       found == None || (i + 1 < |text| && !TakesValue(found.value) && found.value.callback == Returns(-2))
  }

  /** Whether an option word leaves a value pending for the words after it, when `pending` was so before it. */
  predicate LeavesPending(cfg: Config, arg: string, pending: bool)
    requires IsOption(arg)
  {
    if arg[1] != '-' then exists i :: 0 <= i < |arg[1..]| && AbandonedAt(cfg, arg[1..], i)
    else match FindLong(cfg.opts, arg[2..])
      case None => pending
      case Some(hit) => !TakesValue(hit.opt) && (hit.given.Some? || pending)
  }

  lemma AbandonedTail(cfg: Config, text: string, i: nat)
    requires 1 <= i < |text| && FlagsBefore(cfg, text, 1)
    ensures AbandonedAt(cfg, text, i) <==> AbandonedAt(cfg, text[1..], i - 1)
  {
    assert forall j :: 0 <= j < i - 1 ==> text[1..][j] == text[j + 1];
    if FlagsBefore(cfg, text[1..], i - 1) {
      assert forall j :: 1 <= j < i ==> text[j] == text[1..][j - 1];
    }
  }

  lemma {:induction false} BundlePending(cfg: Config, env: Env, rest: seq<string>)
    requires env.optvalue.Some? && env.optvalue.value != "" && Bundle(cfg, env, rest).Did?
    ensures var text := env.optvalue.value;
            Bundle(cfg, env, rest).env.optvalue.Some? <==> exists i :: 0 <= i < |text| && AbandonedAt(cfg, text, i)
    decreases |env.optvalue.value|
  {
    var text := env.optvalue.value;
    var found := FindShort(cfg.opts, text[0]);
    if found == None {
      assert AbandonedAt(cfg, text, 0);
    } else {
      var after := env.(optvalue := if |text| > 1 then Some(text[1..]) else None);
      var g := GetValue(cfg, found.value, false, after, rest);
      ValueOrPending(cfg, found.value, after, rest);
      if TakesValue(found.value) {
        assert forall i :: 0 <= i < |text| ==> !AbandonedAt(cfg, text, i);
      } else if g.code == -2 {
        assert |text| > 1 ==> AbandonedAt(cfg, text, 0);
      } else if |text| > 1 {
        BundlePending(cfg, g.env, rest);
        assert FlagsBefore(cfg, text, 1);
        forall i | 1 <= i < |text|
          ensures AbandonedAt(cfg, text, i) <==> AbandonedAt(cfg, text[1..], i - 1)
        {
          AbandonedTail(cfg, text, i);
        }
        assert forall i :: 0 <= i < |text[1..]| ==> AbandonedAt(cfg, text[1..], i) == AbandonedAt(cfg, text, i + 1);
      }
    }
  }

  /** An option that takes a value leaves none pending; any other leaves what was. */
  lemma ValueOrPending(cfg: Config, opt: Opt, env: Env, rest: seq<string>)
    requires GetValue(cfg, opt, false, env, rest).Got?
    ensures var g := GetValue(cfg, opt, false, env, rest);
            && (TakesValue(opt) ==> g.env.optvalue == None)
            && (!TakesValue(opt) ==> g.env.optvalue == env.optvalue && g.used == 0)
            && (g.code == -2 <==> opt.callback == Returns(-2))
  {
  }

  /** A value stays pending after an option word exactly when a short bundle is abandoned with text left over, or a
      long option takes no value and one was given with `=` or pending already. */
  lemma WordPending(cfg: Config, arg: string, env: Env, rest: seq<string>)
    requires IsOption(arg) && arg != "--" && Word(cfg, arg, env, rest).Did?
    ensures Word(cfg, arg, env, rest).env.optvalue.Some? <==> LeavesPending(cfg, arg, env.optvalue.Some?)
  {
    if arg[1] != '-' {
      BundlePending(cfg, env.(optvalue := Some(arg[1..])), rest);
    }
  }

  /** An option that takes a value uses the next argument exactly when nothing is pending and no `=` is given. */
  lemma LongUsesNext(cfg: Config, word: string, env: Env, rest: seq<string>)
    requires FindLong(cfg.opts, word).Some? && Long(cfg, word, env, rest).Did?
    ensures var hit := FindLong(cfg.opts, word).value;
            Long(cfg, word, env, rest).used == 1
            <==> TakesValue(hit.opt) && hit.given == None && env.optvalue == None
  {
  }

  /** So a value given to a flag reaches the next option that wants one, and that option's own argument
      is returned as a positional. */
  lemma StaleValueMisleads(nums: Numbers)
    ensures var flag := Opt(Boolean, None, Some("verbose"), Some(0), 0, false, NoCallback);
            var name := Opt(Text, None, Some("name"), Some(1), 0, false, NoCallback);
            var seen := See(Config([flag, name], nums, false, false), ["--verbose=junk", "--name", "x"], Env(map[], None));
            seen.Seen? && seen.out == ["x"] && 1 in seen.env.store && seen.env.store[1] == TextV("junk")
  {
    var flag := Opt(Boolean, None, Some("verbose"), Some(0), 0, false, NoCallback);
    var name := Opt(Text, None, Some("name"), Some(1), 0, false, NoCallback);
    var cfg := Config([flag, name], nums, false, false);
    var args := ["--verbose=junk", "--name", "x"];
    var e0 := Env(map[], None);
    var e1 := Env(map[0 := IntV(1)], Some("junk"));
    var e2 := Env(map[0 := IntV(1)][1 := TextV("junk")], None);
    FindTwo(flag, name);
    assert args[0][2..] == "verbose=junk" && args[1][2..] == "name";
    hide Word, FindLong;
    FlagWord(cfg, args[0], flag, "junk", e0, args[1..]);
    NameWord(cfg, args[1], name, e1, args[1..][1..]);
    SeeAfterWord(cfg, args, e0, Did(e1, 0, false));
    assert args[1..][0] == args[1];
    SeeAfterWord(cfg, args[1..], e1, Did(e2, 0, false));
    assert args[1..][1..] == ["x"];
    SeeX(cfg, e2);
  }

  /** A flag given a value counts up and leaves the value pending. */
  lemma FlagWord(cfg: Config, arg: string, flag: Opt, given: string, env: Env, rest: seq<string>)
    requires IsOption(arg) && arg != "--" && arg[1] == '-'
    requires FindLong(cfg.opts, arg[2..]) == Some(Hit(flag, false, Some(given)))
    requires flag.typ == Boolean && flag.slot == Some(0) && flag.callback == NoCallback && env == Env(map[], None)
    ensures Word(cfg, arg, env, rest) == Did(Env(map[0 := IntV(1)], Some(given)), 0, false)
  {
    hide FindLong;
    assert env.store[0 := IntV(1)] == map[0 := IntV(1)];
  }

  /** A text option with a value pending takes it and no argument. */
  lemma NameWord(cfg: Config, arg: string, name: Opt, env: Env, rest: seq<string>)
    requires IsOption(arg) && arg != "--" && arg[1] == '-' && FindLong(cfg.opts, arg[2..]) == Some(Hit(name, false, None))
    requires name.typ == Text && name.slot.Some? && name.callback == NoCallback && env.optvalue.Some?
    ensures Word(cfg, arg, env, rest)
         == Did(Env(env.store[name.slot.value := TextV(env.optvalue.value)], None), 0, false)
  {
    hide FindLong;
  }

  lemma SeeX(cfg: Config, env: Env)
    requires !cfg.stopAtNonOption
    ensures See(cfg, ["x"], env) == Seen(["x"], env)
  {
    var args := ["x"];
    assert args[1..] == [] && [Positional] + [] == [Positional] && [Positional][1..] == [];
    assert Parse(cfg, args, env) == Before([Positional], Parsed([], env)) == Parsed([Positional], env);
    assert Select(args, [Positional]) == ["x"] + Select([], []);
  }

  lemma FindTwo(flag: Opt, name: Opt)
    requires flag.longName == Some("verbose") && name.longName == Some("name") && Negatable(flag) && !Negatable(name)
    ensures FindLong([flag, name], "verbose=junk") == Some(Hit(flag, false, Some("junk")))
    ensures FindLong([flag, name], "name") == Some(Hit(name, false, None))
  {
    assert "verbose=junk"[|"verbose"|..] == "=junk" && "=junk"[1..] == "junk";
    assert "verbose" <= "verbose=junk";
    assert "name"[0] != "verbose"[0] && "name"[1] == 'a' && "no-"[1] == 'o';
    assert "name"[|"name"|..] == "";
    assert [flag, name][1..] == [name];
  }
}
