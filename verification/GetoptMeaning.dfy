/** lib/getopt.c: what each form of an option on the command line means to a caller, whatever follows it. */
module GetoptMeaning {
  import opened GetoptSpec
  import opened GetoptRun

  /** The reading of args begins with e, which passes n elements as options. */
  ghost predicate Begins(cfg: Config, optstring: string, args: seq<string>, n: nat, e: Event)
    requires Decodable(cfg, optstring) && Decodable(cfg, cfg.optstring)
  {
    n <= |args| && Scan(cfg, optstring, "", args) == Before([e], args[..n], [], Scan(cfg, cfg.optstring, "", args[n..]))
  }

  /** Nothing but the one element is needed to decode it. */
  lemma FirstElement(cfg: Config, optstring: string, args: seq<string>, n: nat, e: Event)
    requires Decodable(cfg, optstring) && Decodable(cfg, cfg.optstring) && 0 < n <= |args|
    requires args[0] != "--" && !NonOption(args[0])
    requires Decode(cfg, optstring, args[0], OptionText(cfg, args[0]), args[1..]) == Outcome(e, "", n)
    ensures Begins(cfg, optstring, args, n, e)
  {
    hide Decode;
    assert Scan(cfg, optstring, "", args) == Scan(cfg, optstring, OptionText(cfg, args[0]), args);
  }

  // ---- Long options -------------------------------------------------------------------------

  /** "--", or "-" in getopt_long_only if more than one letter follows. */
  predicate LongDashes(cfg: Config, dashes: string, name: string) {
    dashes == "--" || (cfg.longOnly && dashes == "-" && |name| > 1 && name[0] != '-')
  }

  lemma LongText(cfg: Config, optstring: string, dashes: string, name: string, tail: string)
    requires cfg.longopts.Some? && LongDashes(cfg, dashes, name) && name + tail != ""
    ensures var element := dashes + name + tail;
            && element != "--" && !NonOption(element) && OptionText(cfg, element) == name + tail
            && LongForm(cfg, optstring, element)
  {
    var element := dashes + name + tail;
    if dashes == "--" {
      assert element[2..] == name + tail;
    } else {
      assert element[1] == name[0] && element[1..] == name + tail;
    }
  }

  lemma {:induction false} FirstEquals(name: string, v: string)
    requires '=' !in name
    ensures IndexOf(name + "=" + v, '=') == |name| && IndexOf(name, '=') == |name|
  {
    if name != "" {
      assert (name + "=" + v)[1..] == name[1..] + "=" + v;
      FirstEquals(name[1..], v);
    }
  }

  lemma NamedWithValue(name: string, v: string)
    requires '=' !in name
    ensures NameOf(name + "=" + v) == name == NameOf(name)
    ensures (name + "=" + v)[IndexOf(name + "=" + v, '=') + 1..] == v
  {
    FirstEquals(name, v);
  }

  /** The value that a caller gets for a long option: 0 if it has a flag, which is then set. */
  function ValueOf(p: LongOption): int {
    if p.flag.Some? then 0 else p.val
  }

  function FlagOf(p: LongOption): Option<(nat, int)> {
    if p.flag.Some? then Some((p.flag.value, p.val)) else None
  }

  /** --name=v gives v to an option that takes an argument. */
  lemma LongWithArgument(cfg: Config, optstring: string, dashes: string, name: string, v: string, rest: seq<string>,
                         i: nat)
    requires Decodable(cfg, optstring) && Decodable(cfg, cfg.optstring)
    requires cfg.longopts.Some? && LongDashes(cfg, dashes, name) && '=' !in name
    requires Lookup(cfg.longopts.value, name, cfg.longOnly) == FoundAt(i) && cfg.longopts.value[i].hasArg != 0
    ensures var p := cfg.longopts.value[i];
            Begins(cfg, optstring, [dashes + name + "=" + v] + rest, 1,
                   Event(ValueOf(p), Some(v), None, Some(i), FlagOf(p)))
  {
    var p := cfg.longopts.value[i];
    var element := dashes + name + "=" + v;
    assert element == dashes + name + ("=" + v) && name + ("=" + v) == name + "=" + v;
    LongText(cfg, optstring, dashes, name, "=" + v);
    NamedWithValue(name, v);
    hide IndexOf, Lookup;
    var args := [element] + rest;
    assert Decode(cfg, optstring, element, name + "=" + v, args[1..])
        == DecodeFound(optstring, p, i, name + "=" + v, args[1..], 1, None, true);
    FirstIndex(name, v);
    FirstElement(cfg, optstring, args, 1, Event(ValueOf(p), Some(v), None, Some(i), FlagOf(p)));
  }

  lemma FirstIndex(name: string, v: string)
    requires '=' !in name
    ensures IndexOf(name + "=" + v, '=') == |name| < |name + "=" + v| && IndexOf(name, '=') == |name|
  {
    FirstEquals(name, v);
  }

  /** --name v does so if the option requires one. */
  lemma LongWithNext(cfg: Config, optstring: string, dashes: string, name: string, v: string, rest: seq<string>, i: nat)
    requires Decodable(cfg, optstring) && Decodable(cfg, cfg.optstring)
    requires cfg.longopts.Some? && LongDashes(cfg, dashes, name) && '=' !in name && name != ""
    requires Lookup(cfg.longopts.value, name, cfg.longOnly) == FoundAt(i) && cfg.longopts.value[i].hasArg == 1
    ensures var p := cfg.longopts.value[i];
            Begins(cfg, optstring, [dashes + name, v] + rest, 2,
                   Event(ValueOf(p), Some(v), None, Some(i), FlagOf(p)))
  {
    var p := cfg.longopts.value[i];
    assert name + "" == name && dashes + name + "" == dashes + name;
    LongText(cfg, optstring, dashes, name, "");
    NamedWithValue(name, v);
    FirstIndex(name, v);
    hide IndexOf, Lookup;
    var args := [dashes + name, v] + rest;
    assert args[1..] == [v] + rest;
    FirstElement(cfg, optstring, args, 2, Event(ValueOf(p), Some(v), None, Some(i), FlagOf(p)));
  }

  /** Otherwise --name passes only itself, and there is no argument. */
  lemma LongAlone(cfg: Config, optstring: string, dashes: string, name: string, rest: seq<string>, i: nat)
    requires Decodable(cfg, optstring) && Decodable(cfg, cfg.optstring)
    requires cfg.longopts.Some? && LongDashes(cfg, dashes, name) && '=' !in name && name != ""
    requires Lookup(cfg.longopts.value, name, cfg.longOnly) == FoundAt(i) && cfg.longopts.value[i].hasArg != 1
    ensures var p := cfg.longopts.value[i];
            Begins(cfg, optstring, [dashes + name] + rest, 1, Event(ValueOf(p), None, None, Some(i), FlagOf(p)))
  {
    var p := cfg.longopts.value[i];
    assert name + "" == name && dashes + name + "" == dashes + name;
    LongText(cfg, optstring, dashes, name, "");
    NamedWithValue(name, "");
    FirstIndex(name, "");
    hide IndexOf, Lookup;
    var args := [dashes + name] + rest;
    FirstElement(cfg, optstring, args, 1, Event(ValueOf(p), None, None, Some(i), FlagOf(p)));
  }

  /** What goes wrong with a long option that is found: --name=v if it takes no argument, and --name as the last
      element if it requires one. */
  lemma LongInError(cfg: Config, optstring: string, dashes: string, name: string, v: string, rest: seq<string>, i: nat)
    requires Decodable(cfg, optstring) && Decodable(cfg, cfg.optstring)
    requires cfg.longopts.Some? && LongDashes(cfg, dashes, name) && '=' !in name && name != ""
    requires Lookup(cfg.longopts.value, name, cfg.longOnly) == FoundAt(i)
    ensures var p := cfg.longopts.value[i];
            && (p.hasArg == 0 ==>
                  Begins(cfg, optstring, [dashes + name + "=" + v] + rest, 1,
                         Event('?' as int, None, Some(p.val), None, None)))
            && (p.hasArg == 1 ==>
                  Begins(cfg, optstring, [dashes + name], 1,
                         Event(if ":" <= optstring then ':' as int else '?' as int, None, Some(p.val), None, None)))
  {
    var p := cfg.longopts.value[i];
    assert dashes + name + "=" + v == dashes + name + ("=" + v) && name + ("=" + v) == name + "=" + v;
    assert name + "" == name && dashes + name + "" == dashes + name;
    LongText(cfg, optstring, dashes, name, "=" + v);
    LongText(cfg, optstring, dashes, name, "");
    NamedWithValue(name, v);
    FirstIndex(name, v);
    hide IndexOf, Lookup;
    if p.hasArg == 0 {
      var args := [dashes + name + "=" + v] + rest;
      FirstElement(cfg, optstring, args, 1, Event('?' as int, None, Some(p.val), None, None));
    } else if p.hasArg == 1 {
      var args := [dashes + name];
      assert args[1..] == [];
      FirstElement(cfg, optstring, args, 1, Event(Missing(optstring), None, Some(p.val), None, None));
    }
  }

  /** A name that is ambiguous or unknown, whatever is given with it. */
  lemma LongUnknown(cfg: Config, optstring: string, text: string, rest: seq<string>)
    requires Decodable(cfg, optstring) && Decodable(cfg, cfg.optstring) && cfg.longopts.Some? && text != ""
    requires !Lookup(cfg.longopts.value, NameOf(text), cfg.longOnly).FoundAt?
    ensures Begins(cfg, optstring, ["--" + text] + rest, 1, Event('?' as int, None, Some(0), None, None))
  {
    hide IndexOf, Lookup;
    assert "--" + "" + text == "--" + text && "" + text == text;
    LongText(cfg, optstring, "--", "", text);
    FirstElement(cfg, optstring, ["--" + text] + rest, 1, Event('?' as int, None, Some(0), None, None));
  }

  /** Where two long options must not be abbreviated alike (getopt_long_only and -W), a name is found exactly if it is
      the name of an option or abbreviates only one. */
  lemma StrictLookupFinds(longopts: seq<LongOption>, name: string)
    ensures Lookup(longopts, name, true).FoundAt? <==>
              IsName(longopts, name)
              || exists i | 0 <= i < |longopts| :: name <= longopts[i].name && OnlyOne(longopts, name, i)
  {
    FirstExactIsLeast(longopts, name, 0);
    FirstPrefixedIsLeast(longopts, name, 0);
    var exact, first := FirstExact(longopts, name, 0), FirstPrefixed(longopts, name, 0);
    if exact < |longopts| {
      assert longopts[exact].name == name;
    } else if Lookup(longopts, name, true).FoundAt? {
      assert name <= longopts[first].name && OnlyOne(longopts, name, first);
    }
  }

  predicate OnlyOne(longopts: seq<LongOption>, name: string, i: nat) {
    forall j | 0 <= j < |longopts| && name <= longopts[j].name :: j == i
  }

  /** --name=v and --name v are the same to a caller. */
  lemma BothFormsOfLong(cfg: Config, optstring: string, dashes: string, name: string, v: string, rest: seq<string>,
                        i: nat)
    requires Decodable(cfg, optstring) && Decodable(cfg, cfg.optstring)
    requires cfg.longopts.Some? && LongDashes(cfg, dashes, name) && '=' !in name && name != ""
    requires Lookup(cfg.longopts.value, name, cfg.longOnly) == FoundAt(i) && cfg.longopts.value[i].hasArg == 1
    ensures var p := Scan(cfg, optstring, "", [dashes + name + "=" + v] + rest);
            var q := Scan(cfg, optstring, "", [dashes + name, v] + rest);
            p.events == q.events && p.nonopts == q.nonopts && p.overrun == q.overrun
  {
    LongWithArgument(cfg, optstring, dashes, name, v, rest, i);
    LongWithNext(cfg, optstring, dashes, name, v, rest, i);
    hide Scan, Lookup;
    assert ([dashes + name + "=" + v] + rest)[1..] == rest && ([dashes + name, v] + rest)[2..] == rest;
  }

  // ---- Short options ------------------------------------------------------------------------

  /** x stands in optstring, first at i, and is followed there by what begins with after. */
  predicate Declared(optstring: string, i: nat, x: char, after: string) {
    && i < |optstring| && optstring[i] == x && x != ':' && x !in optstring[..i]
    && after <= optstring[i + 1..]
  }

  lemma {:induction false} IndexOfFirst(s: string, c: char, i: nat)
    requires i < |s| && s[i] == c && c !in s[..i]
    ensures IndexOf(s, c) == i
  {
    if i > 0 {
      assert s[0] in s[..i];
      assert forall k | 0 <= k < i - 1 :: s[1..][k] == s[..i][k + 1];
      IndexOfFirst(s[1..], c, i - 1);
    }
  }

  lemma {:induction false} IndexOfNone(s: string, c: char)
    requires c !in s
    ensures IndexOf(s, c) == |s|
  {
    if s != "" {
      IndexOfNone(s[1..], c);
    }
  }

  /** "-" and a letter: a short option, unless long options are meant. */
  predicate ShortForm(cfg: Config, x: char) {
    x != '-' && (cfg.longopts.None? || !cfg.longOnly)
  }

  lemma ShortText(cfg: Config, optstring: string, x: char, text: string)
    requires ShortForm(cfg, x)
    ensures var element := ['-', x] + text;
            && element != "--" && !NonOption(element) && OptionText(cfg, element) == [x] + text
            && !LongForm(cfg, optstring, element) && ([x] + text)[1..] == text
  {
    var element := ['-', x] + text;
    assert element[1] == x && element[1..] == [x] + text;
  }

  lemma Colons(optstring: string, i: nat, x: char)
    requires i < |optstring| && optstring[i] == x && x != ':' && x !in optstring[..i]
    ensures KindOf(optstring, x)
         == if x == 'W' && At(optstring, i + 1) == ';' then LongViaW
            else if At(optstring, i + 1) != ':' then Flag
            else if At(optstring, i + 2) == ':' then OptionalArg else Required
    ensures At(optstring, i + 1) == ':' <==> ":" <= optstring[i + 1..]
    ensures At(optstring, i + 1) == ':' && At(optstring, i + 2) == ':' <==> "::" <= optstring[i + 1..]
  {
    IndexOfFirst(optstring, x, i);
  }

  /** -xv gives v to an option whose letter has a colon. */
  lemma ShortWithArgument(cfg: Config, optstring: string, i: nat, x: char, v: string, rest: seq<string>)
    requires Decodable(cfg, optstring) && Decodable(cfg, cfg.optstring) && ShortForm(cfg, x)
    requires Declared(optstring, i, x, ":") && v != ""
    ensures Begins(cfg, optstring, [['-', x] + v] + rest, 1, Event(x as int, Some(v), None, None, None))
  {
    Colons(optstring, i, x);
    ShortText(cfg, optstring, x, v);
    hide KindOf;
    FirstElement(cfg, optstring, [['-', x] + v] + rest, 1, Event(x as int, Some(v), None, None, None));
  }

  /** -x v does so if there is only one. */
  lemma ShortWithNext(cfg: Config, optstring: string, i: nat, x: char, v: string, rest: seq<string>)
    requires Decodable(cfg, optstring) && Decodable(cfg, cfg.optstring) && ShortForm(cfg, x)
    requires Declared(optstring, i, x, ":") && !Declared(optstring, i, x, "::")
    ensures Begins(cfg, optstring, [['-', x], v] + rest, 2, Event(x as int, Some(v), None, None, None))
  {
    Colons(optstring, i, x);
    ShortText(cfg, optstring, x, "");
    assert ['-', x] + "" == ['-', x] && [x] + "" == [x];
    hide KindOf;
    var args := [['-', x], v] + rest;
    assert args[1..] == [v] + rest;
    FirstElement(cfg, optstring, args, 2, Event(x as int, Some(v), None, None, None));
  }

  /** With two colons or none, -x passes only itself, and there is no argument. */
  lemma ShortAlone(cfg: Config, optstring: string, i: nat, x: char, rest: seq<string>)
    requires Decodable(cfg, optstring) && Decodable(cfg, cfg.optstring) && ShortForm(cfg, x)
    requires Declared(optstring, i, x, "::") || (Declared(optstring, i, x, "") && !Declared(optstring, i, x, ":"))
    requires x == 'W' ==> !Declared(optstring, i, x, ";")
    ensures Begins(cfg, optstring, [['-', x]] + rest, 1, Event(x as int, None, None, None, None))
  {
    Colons(optstring, i, x);
    ShortText(cfg, optstring, x, "");
    assert ['-', x] + "" == ['-', x] && [x] + "" == [x];
    hide KindOf;
    FirstElement(cfg, optstring, [['-', x]] + rest, 1, Event(x as int, None, None, None, None));
  }

  /** What goes wrong with a short option: its argument is missing at the end, or its letter is unknown. */
  lemma ShortInError(cfg: Config, optstring: string, i: nat, x: char, rest: seq<string>)
    requires Decodable(cfg, optstring) && Decodable(cfg, cfg.optstring) && ShortForm(cfg, x)
    ensures Declared(optstring, i, x, ":") && !Declared(optstring, i, x, "::") ==>
              Begins(cfg, optstring, [['-', x]], 1,
                     Event(if ":" <= optstring then ':' as int else '?' as int, None, Some(x as int), None, None))
    ensures x == ':' || x !in optstring ==>
              Begins(cfg, optstring, [['-', x]] + rest, 1, Event('?' as int, None, Some(x as int), None, None))
  {
    ShortText(cfg, optstring, x, "");
    assert ['-', x] + "" == ['-', x] && [x] + "" == [x];
    if Declared(optstring, i, x, ":") && !Declared(optstring, i, x, "::") {
      Colons(optstring, i, x);
      hide KindOf;
      assert [['-', x]][1..] == [];
      FirstElement(cfg, optstring, [['-', x]], 1, Event(Missing(optstring), None, Some(x as int), None, None));
    }
    if x == ':' || x !in optstring {
      if x != ':' {
        IndexOfNone(optstring, x);
      }
      assert KindOf(optstring, x) == Unknown;
      hide KindOf;
      FirstElement(cfg, optstring, [['-', x]] + rest, 1, Event('?' as int, None, Some(x as int), None, None));
    }
  }

  /** -xv and -x v are the same to a caller. */
  lemma BothFormsOfShort(cfg: Config, optstring: string, i: nat, x: char, v: string, rest: seq<string>)
    requires Decodable(cfg, optstring) && Decodable(cfg, cfg.optstring) && ShortForm(cfg, x)
    requires Declared(optstring, i, x, ":") && !Declared(optstring, i, x, "::") && v != ""
    ensures var p := Scan(cfg, optstring, "", [['-', x] + v] + rest);
            var q := Scan(cfg, optstring, "", [['-', x], v] + rest);
            p.events == q.events && p.nonopts == q.nonopts && p.overrun == q.overrun
  {
    ShortWithArgument(cfg, optstring, i, x, v, rest);
    ShortWithNext(cfg, optstring, i, x, v, rest);
    hide Scan;
    assert ([['-', x] + v] + rest)[1..] == rest && ([['-', x], v] + rest)[2..] == rest;
  }

  // ---- Letters behind one dash --------------------------------------------------------------

  /** What has been read of an element makes no difference to the rest of it. */
  lemma {:induction false} OnlyTheRestMatters(cfg: Config, next: string, e: string, f: string, rest: seq<string>)
    requires Decodable(cfg, cfg.optstring) && next != "" && |e| > 1 && |f| > 1
    requires ShortForm(cfg, e[1]) && ShortForm(cfg, f[1])
    ensures var p, q := Scan(cfg, cfg.optstring, next, [e] + rest), Scan(cfg, cfg.optstring, next, [f] + rest);
            p.events == q.events && p.nonopts == q.nonopts && p.overrun == q.overrun
    decreases |next|
  {
    hide DecodeShort, DecodeLong;
    assert ([e] + rest)[1..] == rest == ([f] + rest)[1..];
    var o := Decode(cfg, cfg.optstring, e, next, rest);
    assert o == Decode(cfg, cfg.optstring, f, next, rest);
    DecodeProgress(cfg, cfg.optstring, e, next, rest);
    if o.advance == 0 {
      OnlyTheRestMatters(cfg, o.next, e, f, rest);
      assert ([e] + rest)[0..] == [e] + rest && ([f] + rest)[0..] == [f] + rest;
    } else if o.advance <= 1 + |rest| {
      assert ([e] + rest)[o.advance..] == ([f] + rest)[o.advance..];
    }
  }

  /** -xy... is -x -y... if x takes no argument. */
  lemma LettersTogether(cfg: Config, i: nat, x: char, y: char, text: string, rest: seq<string>)
    requires Decodable(cfg, cfg.optstring) && ShortForm(cfg, x) && ShortForm(cfg, y)
    requires Declared(cfg.optstring, i, x, "") && !Declared(cfg.optstring, i, x, ":")
    requires x == 'W' ==> !Declared(cfg.optstring, i, x, ";")
    ensures var p := Scan(cfg, cfg.optstring, "", [['-', x, y] + text] + rest);
            var q := Scan(cfg, cfg.optstring, "", [['-', x]] + ([['-', y] + text] + rest));
            p.events == q.events && p.nonopts == q.nonopts && p.overrun == q.overrun
  {
    var optstring, together, second := cfg.optstring, ['-', x, y] + text, ['-', y] + text;
    ShortAlone(cfg, optstring, i, x, [second] + rest);
    Colons(optstring, i, x);
    assert together == ['-', x] + ([y] + text);
    ShortText(cfg, optstring, x, [y] + text);
    ShortText(cfg, optstring, y, text);
    FlagFirst(cfg, x, y, text, rest);
    OnlyTheRestMatters(cfg, [y] + text, together, second, rest);
    hide KindOf, Decode;
    var args := [second] + rest;
    assert Scan(cfg, optstring, "", args) == Scan(cfg, optstring, [y] + text, args);
    assert ([['-', x]] + args)[1..] == args;
  }

  lemma FlagFirst(cfg: Config, x: char, y: char, text: string, rest: seq<string>)
    requires Decodable(cfg, cfg.optstring) && ShortForm(cfg, x) && KindOf(cfg.optstring, x) == Flag
    ensures var args := [['-', x, y] + text] + rest;
            Scan(cfg, cfg.optstring, "", args)
            == Before([Event(x as int, None, None, None, None)], [], [], Scan(cfg, cfg.optstring, [y] + text, args))
  {
    hide KindOf;
    var optstring, together := cfg.optstring, ['-', x, y] + text;
    var args := [together] + rest;
    assert together == ['-', x] + ([y] + text);
    ShortText(cfg, optstring, x, [y] + text);
    assert Decode(cfg, optstring, together, [x] + ([y] + text), args[1..])
        == Outcome(Event(x as int, None, None, None, None), [y] + text, 0);
    hide Decode;
    assert Scan(cfg, optstring, "", args) == Scan(cfg, optstring, [x] + ([y] + text), args);
    assert args[0..] == args && args[..0] == [];
  }

  // ---- Long options behind -W ---------------------------------------------------------------

  /** -Wname=v and -W name=v give v to a long option that takes an argument; one that takes none keeps its own name as
      its argument; and what is no long option is the argument of -W. */
  lemma LongBehindW(cfg: Config, optstring: string, i: nat, name: string, v: string, rest: seq<string>)
    requires Decodable(cfg, optstring) && Decodable(cfg, cfg.optstring) && cfg.longopts.Some? && !cfg.longOnly
    requires Declared(optstring, i, 'W', ";") && '=' !in name && name != ""
    ensures match Lookup(cfg.longopts.value, name, true)
            case Ambiguous => true
            case NotFound =>
              && Begins(cfg, optstring, ["-W" + name] + rest, 1, Event('W' as int, Some(name), None, None, None))
              && Begins(cfg, optstring, ["-W", name] + rest, 2, Event('W' as int, Some(name), None, None, None))
            case FoundAt(k) =>
              var p := cfg.longopts.value[k];
              var given := Event(ValueOf(p), Some(v), None, Some(k), FlagOf(p));
              && (p.hasArg != 0 ==>
                    Begins(cfg, optstring, ["-W" + name + "=" + v] + rest, 1, given)
                    && Begins(cfg, optstring, ["-W", name + "=" + v] + rest, 2, given))
              && (p.hasArg == 1 ==> Begins(cfg, optstring, ["-W" + name, v] + rest, 2, given))
              && (p.hasArg == 0 ==>
                    Begins(cfg, optstring, ["-W" + name] + rest, 1, given.(optarg := Some(name))))
  {
    NamedWithValue(name, v);
    FirstIndex(name, v);
    KindOfW(optstring, i);
    hide IndexOf, Lookup, KindOf, Begins;
    match Lookup(cfg.longopts.value, name, true)
    case Ambiguous =>
    case NotFound =>
      BehindW(cfg, optstring, name, rest, Event('W' as int, Some(name), None, None, None), 0);
    case FoundAt(k) =>
      var p := cfg.longopts.value[k];
      var given := Event(ValueOf(p), Some(v), None, Some(k), FlagOf(p));
      if p.hasArg == 0 {
        BehindW(cfg, optstring, name, rest, given.(optarg := Some(name)), 0);
      } else {
        assert "-W" + (name + "=" + v) == "-W" + name + "=" + v;
        BehindW(cfg, optstring, name + "=" + v, rest, given, 0);
        if p.hasArg == 1 {
          assert [v] + rest != [] && ["-W" + name, v] + rest == ["-W" + name] + ([v] + rest);
          BehindW(cfg, optstring, name, [v] + rest, given, 1);
        }
      }
  }

  lemma KindOfW(optstring: string, i: nat)
    requires Declared(optstring, i, 'W', ";")
    ensures KindOf(optstring, 'W') == LongViaW
  {
    IndexOfFirst(optstring, 'W', i);
  }

  /** The argument of -W in the same element or in the next one, if it takes more elements of rest. */
  lemma BehindW(cfg: Config, optstring: string, text: string, rest: seq<string>, e: Event, more: nat)
    requires Decodable(cfg, optstring) && Decodable(cfg, cfg.optstring) && cfg.longopts.Some? && !cfg.longOnly
    requires KindOf(optstring, 'W') == LongViaW && text != "" && more <= |rest|
    requires DecodeW(cfg, optstring, text, rest, 1) == Outcome(e, "", 1 + more)
    requires DecodeW(cfg, optstring, text, rest, 2) == Outcome(e, "", 2 + more)
    ensures Begins(cfg, optstring, ["-W" + text] + rest, 1 + more, e)
    ensures Begins(cfg, optstring, ["-W", text] + rest, 2 + more, e)
  {
    hide KindOf, DecodeW;
    assert ['-', 'W'] == "-W";
    ShortText(cfg, optstring, 'W', text);
    ShortText(cfg, optstring, 'W', "");
    assert ['-', 'W'] + "" == "-W" && ['W'] + "" == "W";
    var one, two := ["-W" + text] + rest, ["-W", text] + rest;
    assert one[1..] == rest && two[1..] == [text] + rest && two[1..][1..] == rest;
    FirstElement(cfg, optstring, one, 1 + more, e);
    FirstElement(cfg, optstring, two, 2 + more, e);
  }

  // ---- What a caller gets -------------------------------------------------------------------

  /** A whole run over a line that begins with e. */
  method RunFrom(cfg: Config, argv: array<string>, first: nat, ghost n: nat, ghost e: Event)
    returns (events: seq<(int, Option<string>)>)
    requires 0 < first <= argv.Length && e.ret != -1
    requires Decodable(cfg, cfg.optstring) && Decodable(cfg, cfg.FirstOptstring())
    requires Begins(cfg, cfg.FirstOptstring(), argv[first..], n, e)
    modifies argv
    ensures events != [] && events[0] == (e.ret, e.optarg)
  {
    hide Scan;
    ghost var all := Reading(cfg, argv[first..]);
    assert all.events[0] == e;
    var optind, overrun;
    events, optind, overrun := Run(cfg, argv, first);
  }

  // ---- Everything else ----------------------------------------------------------------------

  /** An element that is no option, by the sign in front of optstring: reported with the value 1, the end of the
      options, or passed over. */
  lemma OtherElement(cfg: Config, optstring: string, element: string, rest: seq<string>)
    requires Decodable(cfg, optstring) && Decodable(cfg, cfg.optstring)
    requires element == "" || element == "-" || element[0] != '-'
    ensures var p := Scan(cfg, optstring, "", [element] + rest);
            && ("-" <= cfg.optstring ==>
                  Begins(cfg, optstring, [element] + rest, 1, Event(1, Some(element), None, None, None)))
            && ("+" <= cfg.optstring ==> p == Parse([], [], [element] + rest, false))
            && (!("-" <= cfg.optstring) && !("+" <= cfg.optstring) ==>
                  p == if cfg.posixlyCorrect then Parse([], [], [element] + rest, false)
                       else Before([], [], [element], Scan(cfg, optstring, "", rest)))
  {
    var args := [element] + rest;
    assert args[1..] == rest && args[..1] == [element] && NonOption(element);
  }

  /** "--" ends the options, and counts as one. */
  lemma DoubleDash(cfg: Config, optstring: string, rest: seq<string>)
    requires Decodable(cfg, optstring) && Decodable(cfg, cfg.optstring)
    ensures Scan(cfg, optstring, "", ["--"] + rest) == Parse([], ["--"], rest, false)
  {
    assert (["--"] + rest)[1..] == rest;
  }
}
