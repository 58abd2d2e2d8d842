/**
 * Whose value is whose: the option values a command line should give, read off each word
 * and the argument after it alone, and when the parser's pending value respects that.
 */
module ArgOwn {
  import opened ArgSpec
  import opened Options

  /** One option on the command line, with the text written for it if it takes one. */
  datatype Use = Use(opt: Opt, unset: bool, text: Option<string>)

  function First(args: seq<string>): Option<string> { if args == [] then None else Some(args[0]) }

  /** The options of a bundle; one that takes a value owns the rest of the bundle, or else the next argument. The
      bundle ends there, at an unknown letter, and at a flag whose callback reports an unknown option. */
  function BundleUses(cfg: Config, text: string, next: Option<string>): seq<Use> {
    if text == "" then [] else
    match FindShort(cfg.opts, text[0])
    case None => []
    case Some(opt) =>
      if TakesValue(opt) then [Use(opt, false, if |text| > 1 then Some(text[1..]) else next)]
      else [Use(opt, false, None)] + if opt.callback == Returns(-2) then [] else BundleUses(cfg, text[1..], next)
  }

  /** The options of a word, read off the word and the argument after it alone. */
  function OwnUses(cfg: Config, arg: string, next: Option<string>): seq<Use>
    requires IsOption(arg)
  {
    if arg[1] != '-' then BundleUses(cfg, arg[1..], next)
    else match FindLong(cfg.opts, arg[2..])
      case None => []
      case Some(hit) =>
        [Use(hit.opt, hit.unset,
             if !TakesValue(hit.opt) then None else if hit.given.Some? then hit.given else next)]
  }

  /** The bundle's last letter takes the next argument. */
  predicate BundleNeeds(cfg: Config, text: string)
    requires text != ""
  {
    var last := FindShort(cfg.opts, text[|text| - 1]);
    FlagsBefore(cfg, text, |text| - 1) && last.Some? && TakesValue(last.value)
  }

  /** Whether the argument after the word is written for it. */
  predicate NeedsNext(cfg: Config, arg: string)
    requires IsOption(arg)
  {
    if arg[1] != '-' then BundleNeeds(cfg, arg[1..])
    else
      var found := FindLong(cfg.opts, arg[2..]);
      found.Some? && TakesValue(found.value.opt) && found.value.given == None
  }

  function Converted(store: map<nat, Value>, slot: nat, n: Number): map<nat, Value> {
    if n.Good? then store[slot := n.value] else store
  }

  /** What one option does to the values, given its own text. */
  function Carry(cfg: Config, store: map<nat, Value>, u: Use): map<nat, Value> {
    if u.opt.slot == None then store else
    var slot := u.opt.slot.value;
    match u.opt.typ
    case Boolean => store[slot := IntV(Counted(IntAt(store, slot), u.unset))]
    case Bit => store[slot := IntV(Masked(IntAt(store, slot), u.opt.data, u.unset))]
    case Group => store
    case Text => if u.text.Some? then store[slot := TextV(u.text.value)] else store
    case Integer => if u.text.Some? then Converted(store, slot, cfg.nums.strtol(u.text.value)) else store
    case Float => if u.text.Some? then Converted(store, slot, cfg.nums.strtof(u.text.value)) else store
  }

  function CarryAll(cfg: Config, store: map<nat, Value>, uses: seq<Use>): map<nat, Value>
    decreases uses
  {
    if uses == [] then store else CarryAll(cfg, Carry(cfg, store, uses[0]), uses[1..])
  }

  /** An option given its text as the pending one, or else from the next argument, carries out that use. */
  lemma GetOwn(cfg: Config, opt: Opt, unset: bool, store: map<nat, Value>, pending: Option<string>, rest: seq<string>)
    requires GetValue(cfg, opt, unset, Env(store, pending), rest).Got?
    ensures var g := GetValue(cfg, opt, unset, Env(store, pending), rest);
            var text := if !TakesValue(opt) then None else if pending.Some? then pending else First(rest);
            && g.env.store == Carry(cfg, store, Use(opt, unset, text))
            && g.env.optvalue == (if TakesValue(opt) then None else pending)
            && g.used == (if TakesValue(opt) && pending == None then 1 else 0)
            && (g.code == -2 <==> opt.callback == Returns(-2))
  {
  }

  lemma CarryFirst(cfg: Config, store: map<nat, Value>, u: Use, rest: seq<Use>)
    ensures CarryAll(cfg, store, [u] + rest) == CarryAll(cfg, Carry(cfg, store, u), rest)
    ensures CarryAll(cfg, store, [u]) == Carry(cfg, store, u)
  {
    assert ([u] + rest)[1..] == rest && [u][1..] == [];
    assert CarryAll(cfg, Carry(cfg, store, u), []) == Carry(cfg, store, u);
  }

  lemma NeedsTail(cfg: Config, text: string)
    requires |text| > 1 && FlagsBefore(cfg, text, 1)
    ensures BundleNeeds(cfg, text) <==> BundleNeeds(cfg, text[1..])
  {
    var n := |text| - 1;
    assert text[1..][n - 1] == text[n] && forall j :: 0 <= j < n - 1 ==> text[1..][j] == text[j + 1];
    if FlagsBefore(cfg, text[1..], n - 1) {
      assert forall j :: 1 <= j < n ==> text[j] == text[1..][j - 1];
    }
  }

  /** Beyond one letter, a bundle needs the next argument only through its tail. */
  lemma NeedsFlagFirst(cfg: Config, text: string)
    requires |text| > 1 && BundleNeeds(cfg, text)
    ensures FlagsBefore(cfg, text, 1)
  {
  }

  lemma {:induction false} BundleOwn(cfg: Config, text: string, store: map<nat, Value>, rest: seq<string>)
    requires text != "" && Bundle(cfg, Env(store, Some(text)), rest).Did?
    ensures var d := Bundle(cfg, Env(store, Some(text)), rest);
            && d.env.store == CarryAll(cfg, store, BundleUses(cfg, text, First(rest)))
            && d.used == if BundleNeeds(cfg, text) then 1 else 0
    decreases |text|
  {
    hide GetValue, Carry, CarryAll;
    var found := FindShort(cfg.opts, text[0]);
    if |text| > 1 && BundleNeeds(cfg, text) { NeedsFlagFirst(cfg, text); }
    if found == None {
      NoUses(cfg, store);
    } else {
      var opt := found.value;
      var pending := if |text| > 1 then Some(text[1..]) else None;
      var g := GetValue(cfg, opt, false, Env(store, pending), rest);
      GetOwn(cfg, opt, false, store, pending, rest);
      var u := Use(opt, false, if !TakesValue(opt) then None else if pending.Some? then pending else First(rest));
      if TakesValue(opt) || |text| == 1 || g.code == -2 {
        assert BundleUses(cfg, "", First(rest)) == [];
        assert BundleUses(cfg, text, First(rest)) == [u];
        CarryFirst(cfg, store, u, []);
      } else {
        NeedsTail(cfg, text);
        CarryFirst(cfg, store, u, BundleUses(cfg, text[1..], First(rest)));
        BundleOwn(cfg, text[1..], g.env.store, rest);
      }
    }
  }

  /** The word would take what is pending in place of the argument written for it. */
  predicate Steals(cfg: Config, arg: string, pending: bool)
    requires IsOption(arg)
  {
    pending && arg[1] == '-' && NeedsNext(cfg, arg)
  }

  /** A word that does not meet a pending value it would take carries out its own options, and uses the next argument
      exactly when that is written for it. */
  lemma WordOwn(cfg: Config, arg: string, env: Env, rest: seq<string>)
    requires IsOption(arg) && arg != "--" && !Steals(cfg, arg, env.optvalue.Some?)
    requires Word(cfg, arg, env, rest).Did?
    ensures var d := Word(cfg, arg, env, rest);
            && d.env.store == CarryAll(cfg, env.store, OwnUses(cfg, arg, First(rest)))
            && d.used == if NeedsNext(cfg, arg) then 1 else 0
  {
    hide GetValue, Carry, CarryAll;
    if arg[1] != '-' {
      BundleOwn(cfg, arg[1..], env.store, rest);
    } else {
      var found := FindLong(cfg.opts, arg[2..]);
      if found == None {
        NoUses(cfg, env.store);
      } else {
        var hit := found.value;
        var pending := if hit.given.Some? then hit.given else env.optvalue;
        GetOwn(cfg, hit.opt, hit.unset, env.store, pending, rest);
        assert env.(optvalue := pending) == Env(env.store, pending);
        CarryFirst(cfg, env.store, OwnUses(cfg, arg, First(rest))[0], []);
      }
    }
  }

  lemma NoUses(cfg: Config, store: map<nat, Value>)
    ensures CarryAll(cfg, store, []) == store
  {
  }

  // ------------------------------------------------------------ the whole line

  datatype Owned = Owned(roles: seq<Role>, store: map<nat, Value>)

  function Prepend(roles: seq<Role>, o: Option<Owned>): Option<Owned> {
    if o == None then None else Some(Owned(roles + o.value.roles, o.value.store))
  }

  /** A parse without a pending value: every option is given the text written for it. None if that is missing. */
  function Own(cfg: Config, args: seq<string>, store: map<nat, Value>): Option<Owned>
    decreases args
  {
    if args == [] then Some(Owned([], store))
    else if !IsOption(args[0]) then
      if cfg.stopAtNonOption then Some(Owned(Repeat(Tail, |args|), store))
      else Prepend([Positional], Own(cfg, args[1..], store))
    else if args[0] == "--" then Some(Owned([Terminator] + Repeat(Tail, |args| - 1), store))
    else
      var used := if NeedsNext(cfg, args[0]) then 1 else 0;
      if 1 + used > |args| then None
      else Prepend([OptionWord] + Repeat(OptionValue, used),
                   Own(cfg, args[1 + used..], CarryAll(cfg, store, OwnUses(cfg, args[0], First(args[1..])))))
  }

  /** Reading the words of the line from left to right: some long option meets a pending value that it would take in
      place of its own argument. */
  predicate Clash(cfg: Config, args: seq<string>, pending: bool)
    decreases args
  {
    if args == [] then false
    else if !IsOption(args[0]) then !cfg.stopAtNonOption && Clash(cfg, args[1..], pending)
    else if args[0] == "--" then false
    else if Steals(cfg, args[0], pending) then true
    else
      var used := if NeedsNext(cfg, args[0]) then 1 else 0;
      1 + used <= |args| && Clash(cfg, args[1 + used..], LeavesPending(cfg, args[0], pending))
  }

  /** An option word, with the value it uses, is followed by the rest of the line. */
  lemma WordRoles(cfg: Config, args: seq<string>, env: Env)
    requires args != [] && IsOption(args[0]) && args[0] != "--" && Parse(cfg, args, env).Parsed?
    ensures var d := Word(cfg, args[0], env, args[1..]);
            && d.Did? && d.used <= 1
            && var o, rest := Parse(cfg, args, env), Parse(cfg, args[1 + d.used..], d.env);
               && rest.Parsed? && o.env == rest.env && o.roles[1 + d.used..] == rest.roles
               && o.roles == [OptionWord] + Repeat(OptionValue, d.used) + rest.roles
               && o.roles[0] == OptionWord && (d.used == 1 ==> o.roles[1] == OptionValue)
               && (|o.roles| > 1 + d.used ==> o.roles[1 + d.used] != OptionValue)
  {
    hide Word;
    var d := Word(cfg, args[0], env, args[1..]);
    WordUses(cfg, args[0], env, args[1..]);
    ParseRoles(cfg, args[1 + d.used..], d.env);
  }

  /** A long option that steals is given what was left pending, and leaves its own argument to be read otherwise. */
  lemma PendingIsTaken(cfg: Config, arg: string, store: map<nat, Value>, pending: string, rest: seq<string>)
    requires IsOption(arg) && arg[1] == '-' && arg != "--" && NeedsNext(cfg, arg)
    requires Word(cfg, arg, Env(store, Some(pending)), rest).Did?
    ensures var d, hit := Word(cfg, arg, Env(store, Some(pending)), rest), FindLong(cfg.opts, arg[2..]).value;
            d.env == Env(Carry(cfg, store, Use(hit.opt, hit.unset, Some(pending))), None) && d.used == 0
  {
    var hit := FindLong(cfg.opts, arg[2..]).value;
    hide GetValue, Carry;
    GetOwn(cfg, hit.opt, hit.unset, store, Some(pending), rest);
  }

  /** The parser gives every argument the role, and every option the value, that the line calls for, exactly when no
      long option meets a pending value it would take in place of its own argument. */
  lemma {:induction false} OwnExactly(cfg: Config, args: seq<string>, env: Env)
    requires Parse(cfg, args, env).Parsed?
    ensures var o := Parse(cfg, args, env);
            Own(cfg, args, env.store) == Some(Owned(o.roles, o.env.store)) <==> !Clash(cfg, args, env.optvalue.Some?)
    decreases args
  {
    hide Word, OwnUses, CarryAll, NeedsNext, LeavesPending, Steals;
    if args == [] {
    } else if !IsOption(args[0]) {
      if !cfg.stopAtNonOption {
        OwnExactly(cfg, args[1..], env);
        PrependExactly([Positional], Own(cfg, args[1..], env.store), Parse(cfg, args[1..], env));
      }
    } else if args[0] != "--" {
      WordRoles(cfg, args, env);
      if Steals(cfg, args[0], env.optvalue.Some?) {
        StolenDiffers(cfg, args, env);
      } else {
        OwnAfterWord(cfg, args, env);
      }
    }
  }

  /** No clash is possible on a line none of whose arguments, read as an option word, would leave a value pending. */
  lemma {:induction false} QuietLine(cfg: Config, args: seq<string>)
    requires forall i :: 0 <= i < |args| && IsOption(args[i]) && args[i] != "--" ==> !LeavesPending(cfg, args[i], false)
    ensures !Clash(cfg, args, false)
    decreases args
  {
    hide LeavesPending, NeedsNext;
    if args == [] {
    } else if !IsOption(args[0]) {
      QuietLine(cfg, args[1..]);
    } else if args[0] != "--" {
      var used := if NeedsNext(cfg, args[0]) then 1 else 0;
      if 1 + used <= |args| {
        QuietLine(cfg, args[1 + used..]);
      }
    }
  }

  /** A pending value can also be overwritten unharmed: a short option starts a new one. */
  lemma PendingOverwritten(nums: Numbers, junk: string, x: string)
    requires junk != "" && junk[0] != 'n' && junk[0] != '-'
    ensures var name := Opt(Text, Some('n'), None, Some(1), 0, false, NoCallback);
            var cfg := Config([name], nums, false, true);
            LeavesPending(cfg, "-" + junk, false) && !Clash(cfg, ["-" + junk, "-n", x], false)
  {
    var name := Opt(Text, Some('n'), None, Some(1), 0, false, NoCallback);
    var cfg := Config([name], nums, false, true);
    var args := ["-" + junk, "-n", x];
    assert cfg.opts == [name] && cfg.opts[0].shortName == Some('n') && cfg.opts[1..] == [];
    assert FindShort(cfg.opts, 'n') == Some(name);
    assert FindShort([], junk[0]) == None && FindShort(cfg.opts, junk[0]) == None;
    assert args[0][1..] == junk && args[0][0] == '-' && args[0][1] == junk[0];
    assert AbandonedAt(cfg, junk, 0);
    NoNeed(cfg, junk);
    assert "-n"[1..] == "n" && BundleNeeds(cfg, "n");
    assert args[1..] == ["-n", x] && args[1..][2..] == [];
    assert !Clash(cfg, [], LeavesPending(cfg, "-n", true));
    assert !Clash(cfg, args[1..], true);
  }

  lemma NoNeed(cfg: Config, text: string)
    requires text != "" && FindShort(cfg.opts, text[0]) == None
    ensures !BundleNeeds(cfg, text)
  {
  }

  lemma PrependExactly(first: seq<Role>, own: Option<Owned>, rest: Outcome)
    requires rest.Parsed?
    ensures Prepend(first, own) == Some(Owned(first + rest.roles, rest.env.store))
            <==> own == Some(Owned(rest.roles, rest.env.store))
  {
    if own.Some? && first + own.value.roles == first + rest.roles {
      assert (first + own.value.roles)[|first|..] == own.value.roles && (first + rest.roles)[|first|..] == rest.roles;
    }
  }

  /** Where an argument is stolen from, the roles already differ. */
  lemma StolenDiffers(cfg: Config, args: seq<string>, env: Env)
    requires args != [] && IsOption(args[0]) && args[0] != "--" && Parse(cfg, args, env).Parsed?
    requires Steals(cfg, args[0], env.optvalue.Some?)
    ensures var o := Parse(cfg, args, env); Own(cfg, args, env.store) != Some(Owned(o.roles, o.env.store))
  {
    var o, own := Parse(cfg, args, env), Own(cfg, args, env.store);
    WordRoles(cfg, args, env);
    PendingIsTaken(cfg, args[0], env.store, env.optvalue.value, args[1..]);
    assert env == Env(env.store, env.optvalue);
    hide Word, OwnUses, CarryAll, LeavesPending;
    if own.Some? && |o.roles| > 1 {
      assert own.value.roles[1] == OptionValue;
    }
  }

  lemma OwnUnfold(cfg: Config, args: seq<string>, store: map<nat, Value>, pending: bool, used: nat)
    requires args != [] && IsOption(args[0]) && args[0] != "--" && !Steals(cfg, args[0], pending)
    requires used == (if NeedsNext(cfg, args[0]) then 1 else 0) && 1 + used <= |args|
    ensures Own(cfg, args, store)
         == Prepend([OptionWord] + Repeat(OptionValue, used),
                    Own(cfg, args[1 + used..], CarryAll(cfg, store, OwnUses(cfg, args[0], First(args[1..])))))
    ensures Clash(cfg, args, pending) == Clash(cfg, args[1 + used..], LeavesPending(cfg, args[0], pending))
  {
    hide OwnUses, CarryAll, NeedsNext, LeavesPending, Steals, Prepend;
  }

  lemma {:induction false} OwnAfterWord(cfg: Config, args: seq<string>, env: Env)
    requires args != [] && IsOption(args[0]) && args[0] != "--" && Parse(cfg, args, env).Parsed?
    requires !Steals(cfg, args[0], env.optvalue.Some?)
    ensures var o := Parse(cfg, args, env);
            Own(cfg, args, env.store) == Some(Owned(o.roles, o.env.store)) <==> !Clash(cfg, args, env.optvalue.Some?)
    decreases args, 0
  {
    hide Word, OwnUses, CarryAll, NeedsNext, LeavesPending, Steals, Parse, Own, Clash, Prepend;
    var o, d := Parse(cfg, args, env), Word(cfg, args[0], env, args[1..]);
    WordRoles(cfg, args, env);
    WordOwn(cfg, args[0], env, args[1..]);
    WordPending(cfg, args[0], env, args[1..]);
    OwnUnfold(cfg, args, env.store, env.optvalue.Some?, d.used);
    var rest := args[1 + d.used..];
    OwnExactly(cfg, rest, d.env);
    PrependExactly([OptionWord] + Repeat(OptionValue, d.used), Own(cfg, rest, d.env.store), Parse(cfg, rest, d.env));
  }

  // ------------------------------------------------------------ what each argument is used as

  /** The roles of the arguments, read off the words alone. */
  function RolesOf(cfg: Config, args: seq<string>, pending: bool): (roles: seq<Role>)
    decreases args
  {
    if args == [] then []
    else if !IsOption(args[0]) then
      if cfg.stopAtNonOption then Repeat(Tail, |args|) else [Positional] + RolesOf(cfg, args[1..], pending)
    else if args[0] == "--" then [Terminator] + Repeat(Tail, |args| - 1)
    else
      var used := if NeedsNext(cfg, args[0]) && !Steals(cfg, args[0], pending) && |args| > 1 then 1 else 0;
      [OptionWord] + Repeat(OptionValue, used)
      + RolesOf(cfg, args[1 + used..], LeavesPending(cfg, args[0], pending))
  }

  /** Every argument of a line that parses has exactly the role its words give it: among others, it is an option value
      exactly when the word before it needs an argument and takes none that is pending. */
  lemma {:induction false} RolesExactly(cfg: Config, args: seq<string>, env: Env)
    requires Parse(cfg, args, env).Parsed?
    ensures Parse(cfg, args, env).roles == RolesOf(cfg, args, env.optvalue.Some?)
    decreases args
  {
    hide Word, NeedsNext, LeavesPending, Steals;
    if args == [] {
    } else if !IsOption(args[0]) {
      if !cfg.stopAtNonOption {
        RolesExactly(cfg, args[1..], env);
      }
    } else if args[0] != "--" {
      var d := Word(cfg, args[0], env, args[1..]);
      WordUsed(cfg, args[0], env, args[1..]);
      WordPending(cfg, args[0], env, args[1..]);
      RolesExactly(cfg, args[1 + d.used..], d.env);
    }
  }

  lemma WordUsed(cfg: Config, arg: string, env: Env, rest: seq<string>)
    requires IsOption(arg) && arg != "--" && Word(cfg, arg, env, rest).Did?
    ensures Word(cfg, arg, env, rest).used
         == if NeedsNext(cfg, arg) && !Steals(cfg, arg, env.optvalue.Some?) then 1 else 0
  {
    if Steals(cfg, arg, env.optvalue.Some?) {
      assert env == Env(env.store, env.optvalue);
      PendingIsTaken(cfg, arg, env.store, env.optvalue.value, rest);
    } else {
      hide Word, NeedsNext, Steals;
      WordOwn(cfg, arg, env, rest);
    }
  }

  // ------------------------------------------------------------ what a pending value does

  /** No `=` is needed: with unknown options ignored, an unknown letter leaves its whole bundle pending. */
  lemma UnknownLetterMisleads(nums: Numbers)
    ensures var name := Opt(Text, None, Some("name"), Some(1), 0, false, NoCallback);
            var seen := See(Config([name], nums, false, true), ["-zjunk", "--name", "x"], Env(map[], None));
            seen.Seen? && seen.out == ["x"] && 1 in seen.env.store && seen.env.store[1] == TextV("zjunk")
  {
    var name := Opt(Text, None, Some("name"), Some(1), 0, false, NoCallback);
    var cfg := Config([name], nums, false, true);
    var args := ["-zjunk", "--name", "x"];
    var e0, e1 := Env(map[], None), Env(map[], Some("zjunk"));
    var e2 := Env(map[][1 := TextV("zjunk")], None);
    assert args[0][1..] == "zjunk" && args[1][2..] == "name";
    assert Word(cfg, args[0], e0, args[1..]) == Did(e1, 0, true) by { UnknownLetter(cfg, e1, args[1..], name); }
    FindName(name);
    hide Word, FindLong;
    NameWord(cfg, args[1], name, e1, args[1..][1..]);
    SeeAfterWord(cfg, args, e0, Did(e1, 0, true));
    assert args[1..][0] == args[1];
    SeeAfterWord(cfg, args[1..], e1, Did(e2, 0, false));
    assert args[1..][1..] == ["x"];
    SeeX(cfg, e2);
  }

  lemma UnknownLetter(cfg: Config, env: Env, rest: seq<string>, opt: Opt)
    requires cfg.opts == [opt] && opt.shortName == None && env.optvalue == Some("zjunk")
    ensures Bundle(cfg, env, rest) == Did(env, 0, true)
  {
    assert [opt][1..] == [] && FindShort([], 'z') == None;
    assert "zjunk"[0] == 'z';
  }

  lemma FindName(name: Opt)
    requires name.longName == Some("name")
    ensures FindLong([name], "name") == Some(Hit(name, false, None))
  {
    assert "name"[|"name"|..] == "";
  }
}
