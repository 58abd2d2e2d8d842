/**
 * What words on the command line do to the values and the arguments that the caller sees,
 * stated without the parser's own steps: the counters, the bit flags, values, and the words
 * that are not options.
 */
module ArgFlags {
  import opened Bits
  import opened ArgSpec
  import opened Options

  // ------------------------------------------------------------ what a word names

  /** The word is the name, or the name, `=` and a value. */
  predicate Spells(word: string, name: string, given: Option<string>) {
    word == name + if given == None then "" else "=" + given.value
  }

  /** An option answers to its name; a flag or bit option that may be negated also to its name after `no-`, unless its
      name is itself a prefix of the word. */
  lemma TryLongExactly(opt: Opt, word: string, unset: bool, given: Option<string>)
    ensures TryLong(opt, word) == Some(Hit(opt, unset, given))
            <==> && opt.longName.Some?
                 && var name := opt.longName.value;
                    if unset then
                      !(name <= word) && !opt.noNeg && opt.typ in {Boolean, Bit} && Spells(word, "no-" + name, given)
                    else Spells(word, name, given)
  {
    if opt.longName.Some? {
      var name := opt.longName.value;
      SpellsExactly(word, name, given);
      SpellsExactly(word, "no-" + name, given);
      hide Spells, Accept;
      if name <= word {
        AcceptExactly(opt, unset, word[|name|..], given);
      } else if "no-" <= word {
        Shifted(word, name, given);
        SpellsExactly(word[3..], name, given);
        if name <= word[3..] {
          AcceptExactly(opt, unset, word[3..][|name|..], given);
        }
      } else {
        StartsNo(word, name);
      }
    }
  }

  lemma StartsNo(word: string, name: string)
    requires !("no-" <= word)
    ensures !("no-" + name <= word)
  {
  }

  lemma AcceptExactly(opt: Opt, unset: bool, rest: string, given: Option<string>)
    ensures Accept(opt, unset, rest) == Some(Hit(opt, unset, given))
            <==> if given == None then rest == "" else rest == "=" + given.value
    ensures Accept(opt, unset, rest) != Some(Hit(opt, !unset, given))
  {
    if rest != "" && rest[0] == '=' {
      assert rest == "=" + rest[1..];
    }
    if given.Some? && rest == "=" + given.value {
      assert rest[1..] == given.value;
    }
  }

  lemma Shifted(word: string, name: string, given: Option<string>)
    requires "no-" <= word
    ensures Spells(word, "no-" + name, given) <==> Spells(word[3..], name, given)
  {
    var tail := name + if given == None then "" else "=" + given.value;
    assert "no-" + name + (if given == None then "" else "=" + given.value) == "no-" + tail;
    assert word == "no-" + word[3..];
    assert ("no-" + tail)[3..] == tail;
  }

  lemma SpellsExactly(word: string, name: string, given: Option<string>)
    ensures Spells(word, name, given) <==>
            name <= word && var rest := word[|name|..];
                            if given == None then rest == "" else rest == "=" + given.value
  {
    if name <= word {
      assert word == name + word[|name|..];
    }
  }

  /** The first entry of the table that answers to the word is the one found. */
  lemma {:induction false} FirstThatAnswers(opts: seq<Opt>, word: string)
    ensures match FindLong(opts, word)
            case None => forall i :: 0 <= i < |opts| ==> TryLong(opts[i], word) == None
            case Some(hit) =>
              exists i :: 0 <= i < |opts| && TryLong(opts[i], word) == Some(hit)
                          && forall j :: 0 <= j < i ==> TryLong(opts[j], word) == None
  {
    hide TryLong;
    if opts != [] && TryLong(opts[0], word) == None {
      FirstThatAnswers(opts[1..], word);
      var found := FindLong(opts[1..], word);
      if found.Some? {
        var i :| 0 <= i < |opts[1..]| && TryLong(opts[1..][i], word) == found
                 && forall j :: 0 <= j < i ==> TryLong(opts[1..][j], word) == None;
        assert opts[i + 1] == opts[1..][i];
        forall j | 0 <= j < i + 1
          ensures TryLong(opts[j], word) == None
        {
          if j > 0 {
            assert opts[j] == opts[1..][j - 1];
          }
        }
      } else {
        assert forall i :: 1 <= i < |opts| ==> opts[i] == opts[1..][i - 1];
      }
    }
  }

  /** And the first with the letter. */
  lemma {:induction false} FirstWithLetter(opts: seq<Opt>, c: char)
    ensures match FindShort(opts, c)
            case None => forall i :: 0 <= i < |opts| ==> opts[i].shortName != Some(c)
            case Some(opt) =>
              exists i :: 0 <= i < |opts| && opts[i] == opt && opt.shortName == Some(c)
                          && forall j :: 0 <= j < i ==> opts[j].shortName != Some(c)
  {
    if opts != [] && opts[0].shortName != Some(c) {
      FirstWithLetter(opts[1..], c);
      var found := FindShort(opts[1..], c);
      if found.Some? {
        var i :| 0 <= i < |opts[1..]| && opts[1..][i] == found.value && found.value.shortName == Some(c)
                 && forall j :: 0 <= j < i ==> opts[1..][j].shortName != Some(c);
        assert opts[i + 1] == opts[1..][i];
        forall j | 0 <= j < i + 1
          ensures opts[j].shortName != Some(c)
        {
          if j > 0 {
            assert opts[j] == opts[1..][j - 1];
          }
        }
      } else {
        assert forall i :: 1 <= i < |opts| ==> opts[i] == opts[1..][i - 1];
      }
    }
  }

  // ------------------------------------------------------------ one word

  /** The option called `name`, in a table where no entry before it answers to the name or to its negation. */
  predicate Named(cfg: Config, opt: Opt, name: string) {
    && FindLong(cfg.opts, name) == Some(Hit(opt, false, None))
    && FindLong(cfg.opts, "no-" + name) == Some(Hit(opt, true, None))
    && name != ""
  }

  /** The option's callback, if any, lets parsing go on. */
  predicate Quiet(opt: Opt) { opt.callback == NoCallback || (opt.callback.Returns? && opt.callback.code != -2) }

  function On(name: string): string { "--" + name }

  function Off(name: string): string { "--no-" + name }

  /** A flag's word changes the flag's value, takes no argument, and the rest of the line is read as if alone. */
  lemma FlagWordSeen(cfg: Config, opt: Opt, name: string, slot: nat, off: bool, rest: seq<string>, env: Env)
    requires Named(cfg, opt, name) && Quiet(opt) && opt.slot == Some(slot) && opt.typ in {Boolean, Bit}
    ensures var i := IntAt(env.store, slot);
            var v := if opt.typ == Boolean then Counted(i, off) else Masked(i, opt.data, off);
            See(cfg, [if off then Off(name) else On(name)] + rest, env)
            == See(cfg, rest, env.(store := env.store[slot := IntV(v)]))
  {
    hide Masked, Counted, FindLong;
    var arg := if off then Off(name) else On(name);
    var args := [arg] + rest;
    assert arg[2..] == if off then "no-" + name else name;
    assert args[1..] == rest && arg != "--" && args[0] == arg;
    SeeAfterWord(cfg, args, env, Word(cfg, arg, env, rest));
  }

  /** A letter does what its option's name does, when nothing is pending. */
  lemma LetterIsName(cfg: Config, opt: Opt, name: string, letter: char, slot: nat, rest: seq<string>, env: Env)
    requires Named(cfg, opt, name) && Quiet(opt) && opt.slot == Some(slot) && opt.typ in {Boolean, Bit}
    requires letter != '-' && FindShort(cfg.opts, letter) == Some(opt) && env.optvalue == None
    ensures See(cfg, [['-', letter]] + rest, env) == See(cfg, [On(name)] + rest, env)
  {
    hide Masked, Counted, FindLong, FindShort;
    SeeOneFlag(cfg, letter, rest, env);
    FlagWordSeen(cfg, opt, name, slot, false, rest, env);
    assert env.(optvalue := None) == env;
  }

  /** An option without a value of its own does what its callback does: go on, end the process, or, with the code -2,
      count as unknown. */
  lemma CallbackWord(cfg: Config, opt: Opt, name: string, rest: seq<string>, env: Env)
    requires name != "" && FindLong(cfg.opts, name) == Some(Hit(opt, false, None)) && opt.slot == None
    ensures See(cfg, [On(name)] + rest, env)
            == if opt.callback == Exits then SeenExit(CallbackExit)
               else if opt.callback == Returns(-2) && !cfg.ignoreUnknown then SeenExit(UnknownOption)
               else See(cfg, rest, env)
  {
    hide FindLong;
    var arg := On(name);
    var args := [arg] + rest;
    assert arg[2..] == name && args[1..] == rest && arg != "--" && args[0] == arg;
    if opt.callback != Exits && (opt.callback != Returns(-2) || cfg.ignoreUnknown) {
      SeeAfterWord(cfg, args, env, Word(cfg, arg, env, rest));
    }
  }

  // ------------------------------------------------------------ counters

  /** How many more `--name` than `--no-name` there are among words that are one or the other. */
  function Net(words: seq<string>, name: string): int { |words| - 2 * multiset(words)[Off(name)] }

  lemma NetFirst(words: seq<string>, name: string)
    requires words != []
    ensures Net(words, name) == Net(words[1..], name) + if words[0] == Off(name) then -1 else 1
  {
    assert words == [words[0]] + words[1..];
    assert multiset(words) == multiset([words[0]]) + multiset(words[1..]);
  }

  /** `v` is the most that counting the words up and down from v0, or from 0 after any of them, comes to. */
  ghost predicate Highest(v: int, v0: int, words: seq<string>, name: string) {
    && v >= v0 + Net(words, name)
    && (forall k :: 0 < k <= |words| ==> v >= Net(words[k..], name))
    && (v == v0 + Net(words, name) || exists k :: 0 < k <= |words| && v == Net(words[k..], name))
  }

  ghost predicate FlagWords(words: seq<string>, name: string) {
    forall k :: 0 <= k < |words| ==> words[k] == On(name) || words[k] == Off(name)
  }

  /** A line of `--name` and `--no-name` leaves a counter at v0 plus their difference, counted again from 0 wherever it
      would have gone below, and does nothing else. */
  lemma {:induction false} CounterLine(cfg: Config, opt: Opt, name: string, slot: nat, words: seq<string>,
                                       rest: seq<string>, env: Env, v0: int) returns (v: int)
    requires Named(cfg, opt, name) && Quiet(opt) && opt.slot == Some(slot) && opt.typ == Boolean
    requires slot in env.store && env.store[slot] == IntV(v0)
    requires words != [] && FlagWords(words, name)
    ensures v >= 0 && Highest(v, v0, words, name)
    ensures See(cfg, words + rest, env) == See(cfg, rest, env.(store := env.store[slot := IntV(v)]))
    decreases |words|
  {
    hide Named, FindLong, Net, See, Quiet;
    var off, more := words[0] == Off(name), words[1..];
    var v1 := v0 + if off then -1 else 1;
    if v1 < 0 { v1 := 0; }
    assert words + rest == [if off then Off(name) else On(name)] + (more + rest);
    FlagWordSeen(cfg, opt, name, slot, off, more + rest, env);
    NetFirst(words, name);
    NothingNet(name);
    if more == [] {
      v := v1;
      assert more + rest == rest && words[1..] == [];
    } else {
      var e := env.(store := env.store[slot := IntV(v1)]);
      v := CounterLine(cfg, opt, name, slot, more, rest, e, v1);
      assert e.store[slot := IntV(v)] == env.store[slot := IntV(v)];
      HighestOn(v, v0, v1, words, name);
    }
  }

  lemma NothingNet(name: string)
    ensures Net([], name) == 0
  {
  }

  lemma HighestOn(v: int, v0: int, v1: int, words: seq<string>, name: string)
    requires words != [] && Highest(v, v1, words[1..], name)
    requires Net(words, name) == Net(words[1..], name) + if words[0] == Off(name) then -1 else 1
    requires var s := v0 + if words[0] == Off(name) then -1 else 1; v1 == if s < 0 then 0 else s
    ensures Highest(v, v0, words, name)
  {
    hide Net;
    var more := words[1..];
    assert forall k :: 0 < k <= |more| ==> more[k..] == words[k + 1..];
    assert words[1..] == more;
    forall k | 0 < k <= |words|
      ensures v >= Net(words[k..], name)
    {
      if k > 1 {
        assert words[k..] == more[k - 1..];
      }
    }
    if v == v1 + Net(more, name) {
      assert v == v0 + Net(words, name) || v == Net(words[1..], name);
    } else {
      var k :| 0 < k <= |more| && v == Net(more[k..], name);
      assert words[k + 1..] == more[k..];
    }
  }

  /** `--name` and then `--no-name` restore every counter that is not negative. */
  lemma OnThenOff(cfg: Config, opt: Opt, name: string, slot: nat, rest: seq<string>, env: Env, v0: nat)
    requires Named(cfg, opt, name) && Quiet(opt) && opt.slot == Some(slot) && opt.typ == Boolean
    requires slot in env.store && env.store[slot] == IntV(v0)
    ensures See(cfg, [On(name), Off(name)] + rest, env) == See(cfg, rest, env)
  {
    hide FindLong;
    var e := env.(store := env.store[slot := IntV(v0 + 1)]);
    assert [On(name), Off(name)] + rest == [On(name)] + ([Off(name)] + rest);
    FlagWordSeen(cfg, opt, name, slot, false, [Off(name)] + rest, env);
    FlagWordSeen(cfg, opt, name, slot, true, rest, e);
    assert e.store[slot := IntV(v0)] == env.store;
  }

  /** `--no-name` counts a flag that is set down by one and leaves one that is not alone; none goes below 0. */
  lemma OffCountsDown(cfg: Config, opt: Opt, name: string, slot: nat, rest: seq<string>, env: Env, v0: int)
    requires Named(cfg, opt, name) && Quiet(opt) && opt.slot == Some(slot) && opt.typ == Boolean
    requires slot in env.store && env.store[slot] == IntV(v0)
    ensures See(cfg, [Off(name)] + rest, env)
         == See(cfg, rest, env.(store := env.store[slot := IntV(if v0 >= 1 then v0 - 1 else 0)]))
  {
    hide FindLong;
    FlagWordSeen(cfg, opt, name, slot, true, rest, env);
  }

  // ------------------------------------------------------------ bit flags

  /** Bit i of a two's complement int: the parity after i arithmetic shifts to the right. */
  predicate IntBit(v: int, i: nat)
    decreases i
  {
    if i == 0 then v % 2 == 1 else IntBit(v / 2, i - 1)
  }

  /** Moving an int by a multiple of 2^n changes none of its low n bits. */
  lemma {:induction false} SameLowBits(v: int, q: int, n: nat, i: nat)
    requires i < n
    ensures IntBit(v + q * Pow2(n), i) == IntBit(v, i)
    decreases i
  {
    var half := q * Pow2(n - 1);
    assert q * Pow2(n) == 2 * half by { TwiceInto(q, Pow2(n - 1)); }
    if i > 0 {
      assert (v + 2 * half) / 2 == v / 2 + half;
      SameLowBits(v / 2, q, n - 1, i - 1);
    }
  }

  lemma TwiceInto(q: int, p: int)
    ensures q * (2 * p) == 2 * (q * p)
  {
  }

  lemma {:induction false} DataBit(w: nat, i: nat)
    ensures IntBit(w, i) == BitAt(w, i)
    decreases i
  {
    if i > 0 {
      DataBit(w / 2, i - 1);
    }
  }

  lemma ToBitsBit(v: int, i: nat)
    requires i < 32
    ensures BitAt(ToBits(v), i) == IntBit(v, i)
  {
    hide IntBit, BitAt, Pow2;
    Pow32();
    var q := v / WORD;
    assert v == ToBits(v) + q * WORD;
    SameLowBits(ToBits(v), q, 32, i);
    DataBit(ToBits(v), i);
  }

  lemma FromBitsBit(w: nat, i: nat)
    requires i < 32
    ensures IntBit(FromBits(w), i) == BitAt(w, i)
  {
    hide IntBit, BitAt, Pow2;
    Pow32();
    var v, q := FromBits(w), w / WORD;
    assert w == w % WORD + q * WORD;
    var m := if v == w % WORD then q else q + 1;
    assert w == v + m * WORD;
    SameLowBits(v, m, 32, i);
    DataBit(w, i);
  }

  /** `v` is an int with the bits of v0, but for those of `data`, which are all on or all off. */
  ghost predicate MaskedInto(v: int, v0: int, data: nat, off: bool) {
    && -0x8000_0000 <= v <= 0x7FFF_FFFF
    && forall i: nat :: i < 32 ==> (IntBit(v, i) <==> if BitAt(data, i) then !off else IntBit(v0, i))
  }

  lemma MaskedBits(v0: int, data: nat, off: bool)
    ensures MaskedInto(Masked(v0, data, off), v0, data, off)
  {
    hide IntBit, BitAt, Or, And, Pow2;
    var w, d, v := ToBits(v0), data % WORD, Masked(v0, data, off);
    forall i: nat | i < 32
      ensures IntBit(v, i) <==> if BitAt(data, i) then !off else IntBit(v0, i)
    {
      ToBitsBit(v0, i);
      ToBitsBit(data, i);
      DataBit(data, i);
      if off {
        Pow32();
        NotBit(d, 32, i);
        AndBit(w, WORD - 1 - d, i);
        FromBitsBit(And(w, WORD - 1 - d), i);
      } else {
        OrBit(w, d, i);
        FromBitsBit(Or(w, d), i);
      }
    }
  }

  /** After any line of `--name` and `--no-name`, a bit option has all the bits of its data on or all of them off, as
      the last word says, and every other bit as before. */
  lemma {:induction false} BitLine(cfg: Config, opt: Opt, name: string, slot: nat, words: seq<string>,
                                   rest: seq<string>, env: Env, v0: int) returns (v: int)
    requires Named(cfg, opt, name) && Quiet(opt) && opt.slot == Some(slot) && opt.typ == Bit
    requires slot in env.store && env.store[slot] == IntV(v0)
    requires words != [] && FlagWords(words, name)
    ensures MaskedInto(v, v0, opt.data, words[|words| - 1] == Off(name))
    ensures See(cfg, words + rest, env) == See(cfg, rest, env.(store := env.store[slot := IntV(v)]))
    decreases |words|
  {
    hide Named, FindLong, Masked, IntBit, BitAt;
    var off, more := words[0] == Off(name), words[1..];
    assert words + rest == [if off then Off(name) else On(name)] + (more + rest);
    FlagWordSeen(cfg, opt, name, slot, off, more + rest, env);
    v := Masked(v0, opt.data, off);
    MaskedBits(v0, opt.data, off);
    if more == [] {
      assert more + rest == rest;
    } else {
      var e := env.(store := env.store[slot := IntV(v)]);
      v := BitLine(cfg, opt, name, slot, more, rest, e, v);
      assert e.store[slot := IntV(v)] == env.store[slot := IntV(v)];
    }
  }

  // ------------------------------------------------------------ words that are not options

  /** An argument that does not start with a dash, or is a single one, is kept in its place; or, where parsing stops
      at the first such, it and everything after it is. */
  lemma PlainWordKept(cfg: Config, arg: string, rest: seq<string>, env: Env)
    requires arg == "" || arg == "-" || arg[0] != '-'
    ensures See(cfg, [arg] + rest, env)
            == if cfg.stopAtNonOption then Seen([arg] + rest, env)
               else match See(cfg, rest, env)
                    case SeenExit(e) => SeenExit(e)
                    case Seen(out, env') => Seen([arg] + out, env')
  {
    var args := [arg] + rest;
    assert args[1..] == rest && !IsOption(args[0]);
    if cfg.stopAtNonOption {
      SelectTail(args);
    } else {
      var o := Parse(cfg, rest, env);
      if o.Parsed? {
        assert ([Positional] + o.roles)[1..] == o.roles;
      }
    }
  }

  /** `--` is dropped and everything after it is kept. */
  lemma TerminatorKeepsRest(cfg: Config, rest: seq<string>, env: Env)
    ensures See(cfg, ["--"] + rest, env) == Seen(rest, env)
  {
    var args := ["--"] + rest;
    assert args[1..] == rest;
    assert ([Terminator] + Repeat(Tail, |rest|))[1..] == Repeat(Tail, |rest|);
    SelectTail(rest);
  }

  /** A word that names no option ends the process, or is dropped where unknown options are ignored. */
  lemma UnknownWord(cfg: Config, name: string, rest: seq<string>, env: Env)
    requires name != "" && FindLong(cfg.opts, name) == None
    ensures See(cfg, ["--" + name] + rest, env)
            == if cfg.ignoreUnknown then See(cfg, rest, env) else SeenExit(UnknownOption)
  {
    hide FindLong;
    var arg := "--" + name;
    var args := [arg] + rest;
    assert args[1..] == rest && arg[2..] == name && arg != "--";
    if cfg.ignoreUnknown {
      SeeAfterWord(cfg, args, env, Did(env, 0, true));
    }
  }

  // ------------------------------------------------------------ options with a value

  /** How the text of a value is read: numbers as the C library reads them, anything else as it stands. */
  function Reading(cfg: Config, opt: Opt, text: string): Number {
    if opt.typ == Integer then cfg.nums.strtol(text)
    else if opt.typ == Float then cfg.nums.strtof(text)
    else Good(TextV(text))
  }

  /** A value given with `=` and one given as the next argument do the same: stored if it reads as the option's type
      says, and otherwise the process ends, which a missing value makes it do too. */
  lemma ValueForms(cfg: Config, opt: Opt, name: string, slot: nat, text: string, rest: seq<string>, env: Env)
    requires name != "" && env.optvalue == None
    requires opt.slot == Some(slot) && opt.typ in {Integer, Float, Text} && Quiet(opt)
    requires FindLong(cfg.opts, name) == Some(Hit(opt, false, None))
    requires FindLong(cfg.opts, name + "=" + text) == Some(Hit(opt, false, Some(text)))
    ensures var seen := match Reading(cfg, opt, text)
                        case Good(v) => See(cfg, rest, env.(store := env.store[slot := v]))
                        case OutOfRange => SeenExit(ValueOutOfRange)
                        case Malformed => SeenExit(NotANumber);
            && See(cfg, ["--" + name + "=" + text] + rest, env) == seen
            && See(cfg, ["--" + name, text] + rest, env) == seen
    ensures See(cfg, ["--" + name], env) == SeenExit(MissingValue)
  {
    GivenValue(cfg, opt, name, slot, text, rest, env);
    NextValue(cfg, opt, name, slot, text, rest, env);
    hide FindLong;
    var args := ["--" + name];
    assert args[1..] == [] && args[0][2..] == name && args[0] != "--";
  }

  lemma GivenValue(cfg: Config, opt: Opt, name: string, slot: nat, text: string, rest: seq<string>, env: Env)
    requires name != "" && env.optvalue == None
    requires opt.slot == Some(slot) && opt.typ in {Integer, Float, Text} && Quiet(opt)
    requires FindLong(cfg.opts, name + "=" + text) == Some(Hit(opt, false, Some(text)))
    ensures See(cfg, ["--" + name + "=" + text] + rest, env)
            == match Reading(cfg, opt, text)
               case Good(v) => See(cfg, rest, env.(store := env.store[slot := v]))
               case OutOfRange => SeenExit(ValueOutOfRange)
               case Malformed => SeenExit(NotANumber)
  {
    hide FindLong;
    var arg := "--" + name + "=" + text;
    var args := [arg] + rest;
    assert args[1..] == rest && arg[2..] == name + "=" + text && arg != "--" && args[0] == arg;
    var d := Word(cfg, arg, env, rest);
    if d.Did? {
      assert d == Did(env.(store := env.store[slot := Reading(cfg, opt, text).value]), 0, false);
      SeeAfterWord(cfg, args, env, d);
    }
  }

  lemma NextValue(cfg: Config, opt: Opt, name: string, slot: nat, text: string, rest: seq<string>, env: Env)
    requires name != "" && env.optvalue == None
    requires opt.slot == Some(slot) && opt.typ in {Integer, Float, Text} && Quiet(opt)
    requires FindLong(cfg.opts, name) == Some(Hit(opt, false, None))
    ensures See(cfg, ["--" + name, text] + rest, env)
            == match Reading(cfg, opt, text)
               case Good(v) => See(cfg, rest, env.(store := env.store[slot := v]))
               case OutOfRange => SeenExit(ValueOutOfRange)
               case Malformed => SeenExit(NotANumber)
  {
    hide FindLong;
    var arg := "--" + name;
    var args := [arg, text] + rest;
    assert args[1..] == [text] + rest && arg[2..] == name && arg != "--" && args[0] == arg && args[2..] == rest;
    var d := Word(cfg, arg, env, args[1..]);
    if d.Did? {
      assert d == Did(env.(store := env.store[slot := Reading(cfg, opt, text).value]), 1, false);
      SeeAfterValue(cfg, args, env, d);
    }
  }

  /** After an option word that used the next argument. */
  lemma SeeAfterValue(cfg: Config, args: seq<string>, env: Env, d: Did)
    requires |args| >= 2 && IsOption(args[0]) && args[0] != "--"
    requires d == Word(cfg, args[0], env, args[1..]) && d.Did? && d.used == 1 && !d.unknown
    ensures See(cfg, args, env) == See(cfg, args[2..], d.env)
  {
    hide Word;
    var o := Parse(cfg, args[2..], d.env);
    if o.Parsed? {
      var roles := [OptionWord] + Repeat(OptionValue, 1) + o.roles;
      assert roles[1..][1..] == o.roles && args[1..][1..] == args[2..];
      assert roles[1] == OptionValue && Select(args[1..], roles[1..]) == Select(args[2..], o.roles);
    }
  }
}
