/** lib/getopt.c: whole runs, from the first call to the one that returns -1, when the caller changes neither
    argv nor optind. */
module GetoptRun {
  import opened GetoptSpec
  import opened Getopt

  // ---- What a reading from left to right yields --------------------------------------------

  /** s is made of a and b, each kept in order. */
  ghost predicate Interleaves<T>(s: seq<T>, a: seq<T>, b: seq<T>)
    decreases |s|
  {
    if s == [] then a == [] && b == []
    else (a != [] && a[0] == s[0] && Interleaves(s[1..], a[1..], b))
         || (b != [] && b[0] == s[0] && Interleaves(s[1..], a, b[1..]))
  }

  lemma {:induction false} InterleavesPrefix<T>(x: seq<T>, s: seq<T>, a: seq<T>, b: seq<T>)
    requires Interleaves(s, a, b)
    ensures Interleaves(x + s, x + a, b)
  {
    if x == [] {
      assert x + s == s && x + a == a;
    } else {
      InterleavesPrefix(x[1..], s, a, b);
      assert (x + s)[1..] == x[1..] + s && (x + a)[1..] == x[1..] + a;
    }
  }

  lemma {:induction false} InterleavesRest<T>(s: seq<T>)
    ensures Interleaves(s, [], s)
  {
    if s != [] {
      InterleavesRest(s[1..]);
    }
  }

  lemma {:induction false} InterleavesKeepsElements<T>(s: seq<T>, a: seq<T>, b: seq<T>)
    requires Interleaves(s, a, b)
    ensures |s| == |a| + |b| && multiset(s) == multiset(a) + multiset(b)
    decreases |s|
  {
    if s != [] {
      assert s == [s[0]] + s[1..];
      if a != [] && a[0] == s[0] && Interleaves(s[1..], a[1..], b) {
        InterleavesKeepsElements(s[1..], a[1..], b);
        assert a == [a[0]] + a[1..];
      } else {
        InterleavesKeepsElements(s[1..], a, b[1..]);
        assert b == [b[0]] + b[1..];
      }
    }
  }

  lemma InterleavesFirst<T>(s: seq<T>, a: seq<T>, b: seq<T>)
    requires s != [] && Interleaves(s[1..], a, b)
    ensures Interleaves(s, s[..1] + a, b) && Interleaves(s, a, s[..1] + b)
  {
    assert (s[..1] + a)[1..] == a && (s[..1] + b)[1..] == b;
  }

  /** A run that stays within argv divides the command line into options, with their arguments, and other
      elements: nothing is lost, doubled or reordered within either part. */
  lemma {:induction false} ScanDivides(cfg: Config, optstring: string, next: string, rest: seq<string>)
    requires Decodable(cfg, optstring) && Decodable(cfg, cfg.optstring) && (next != "" ==> rest != [])
    requires !Scan(cfg, optstring, next, rest).overrun
    ensures var p := Scan(cfg, optstring, next, rest); Interleaves(rest, p.opts, p.nonopts)
    decreases |rest|, if next != "" then |next| else if rest != [] then |rest[0]| + 1 else 0
  {
    hide Decode, Interleaves;
    if next != "" {
      var o := Decode(cfg, optstring, rest[0], next, rest[1..]);
      DecodeProgress(cfg, optstring, rest[0], next, rest[1..]);
      var q := Scan(cfg, cfg.optstring, o.next, rest[o.advance..]);
      ScanDivides(cfg, cfg.optstring, o.next, rest[o.advance..]);
      InterleavesPrefix(rest[..o.advance], rest[o.advance..], q.opts, q.nonopts);
      assert rest == rest[..o.advance] + rest[o.advance..];
      assert [] + q.nonopts == q.nonopts;
    } else if rest == [] {
      InterleavesRest(rest);
    } else if rest[0] == "--" {
      InterleavesRest(rest[1..]);
      InterleavesPrefix(["--"], rest[1..], [], rest[1..]);
      assert rest == ["--"] + rest[1..] && ["--"] + [] == ["--"];
    } else if !NonOption(rest[0]) {
      ScanDivides(cfg, optstring, OptionText(cfg, rest[0]), rest);
    } else {
      match cfg.Ordering() {
        case PERMUTE =>
          ScanDivides(cfg, optstring, "", rest[1..]);
          var q := Scan(cfg, optstring, "", rest[1..]);
          InterleavesFirst(rest, q.opts, q.nonopts);
          assert [] + q.opts == q.opts;
        case REQUIRE_ORDER =>
          InterleavesRest(rest);
        case RETURN_IN_ORDER =>
          ScanDivides(cfg, cfg.optstring, "", rest[1..]);
          var q := Scan(cfg, cfg.optstring, "", rest[1..]);
          InterleavesFirst(rest, q.opts, q.nonopts);
          assert [] + q.nonopts == q.nonopts;
      }
    }
  }

  /** So a run that stays within argv permutes it. */
  lemma RunPermutes(cfg: Config, args: seq<string>)
    requires Decodable(cfg, cfg.optstring) && Decodable(cfg, cfg.FirstOptstring()) && !Reading(cfg, args).overrun
    ensures var p := Reading(cfg, args); multiset(p.opts + p.nonopts) == multiset(args)
  {
    var p := Reading(cfg, args);
    ScanDivides(cfg, cfg.FirstOptstring(), "", args);
    InterleavesKeepsElements(args, p.opts, p.nonopts);
  }

  /** Without "W;" among the options, no run leaves argv. */
  lemma {:induction false} NoOverrunWithoutW(cfg: Config, optstring: string, next: string, rest: seq<string>)
    requires KindOf(optstring, 'W') != LongViaW && KindOf(cfg.optstring, 'W') != LongViaW
    requires next != "" ==> rest != []
    ensures !Scan(cfg, optstring, next, rest).overrun
    decreases |rest|, if next != "" then |next| else if rest != [] then |rest[0]| + 1 else 0
  {
    if next != "" {
      var o := Decode(cfg, optstring, rest[0], next, rest[1..]);
      DecodeProgress(cfg, optstring, rest[0], next, rest[1..]);
      DecodeStaysInside(cfg, optstring, rest[0], next, rest[1..]);
      NoOverrunWithoutW(cfg, cfg.optstring, o.next, rest[o.advance..]);
    } else if rest == [] || rest[0] == "--" {
    } else if !NonOption(rest[0]) {
      NoOverrunWithoutW(cfg, optstring, OptionText(cfg, rest[0]), rest);
    } else {
      match cfg.Ordering() {
        case PERMUTE => NoOverrunWithoutW(cfg, optstring, "", rest[1..]);
        case REQUIRE_ORDER =>
        case RETURN_IN_ORDER => NoOverrunWithoutW(cfg, cfg.optstring, "", rest[1..]);
      }
    }
  }

  /** The only call that leaves argv: an option read as -W; text is what follows it, and nothing follows text. */
  predicate AmbiguousLast(cfg: Config, optstring: string, next: string, following: seq<string>)
    requires |next| > 0 && Decodable(cfg, optstring)
  {
    && KindOf(optstring, next[0]) == LongViaW
    && |following| == (if |next| == 1 then 1 else 0)
    && Lookup(cfg.longopts.value, NameOf(if |next| == 1 then following[0] else next[1..]), true) == Ambiguous
  }

  /** The element is read as short options. */
  predicate ReadsShort(cfg: Config, optstring: string, element: string, next: string)
    requires |next| > 0
  {
    LongForm(cfg, optstring, element) ==>
      cfg.longOnly && Lookup(cfg.longopts.value, NameOf(next), true) == NotFound
      && At(element, 1) != '-' && IndexOf(optstring, next[0]) != |optstring|
  }

  /** optind passes the end exactly if the last thing on the command line is an ambiguous name after -W. */
  lemma OverrunExactly(cfg: Config, optstring: string, element: string, next: string, following: seq<string>)
    requires |next| > 0 && Decodable(cfg, optstring)
    ensures Decode(cfg, optstring, element, next, following).advance > |following| + 1 <==>
              ReadsShort(cfg, optstring, element, next) && AmbiguousLast(cfg, optstring, next, following)
  {
    ShortOverrunExactly(cfg, optstring, next, following);
    hide DecodeShort, AmbiguousLast;
  }

  lemma ShortOverrunExactly(cfg: Config, optstring: string, next: string, following: seq<string>)
    requires |next| > 0 && Decodable(cfg, optstring)
    ensures DecodeShort(cfg, optstring, next, following).advance > |following| + 1 <==>
              AmbiguousLast(cfg, optstring, next, following)
  {
  }

  /** Such a command line exists: "-W a" with the long options ab and ac. */
  lemma OverrunHappens()
    ensures var cfg := Config("W;", Some([LongOption("ab", 0, None, 1), LongOption("ac", 0, None, 2)]), false, false);
            Scan(cfg, cfg.FirstOptstring(), "", ["-W", "a"]).overrun
  {
    var p, q := LongOption("ab", 0, None, 1), LongOption("ac", 0, None, 2);
    var longopts := [p, q];
    var cfg := Config("W;", Some(longopts), false, false);
    var args := ["-W", "a"];
    assert KindOf("W;", 'W') == LongViaW;
    FirstExactIsLeast(longopts, "a", 0);
    FirstPrefixedIsLeast(longopts, "a", 0);
    assert "a" <= p.name && "a" <= longopts[1].name;
    assert Lookup(longopts, "a", true) == Ambiguous;
    assert NameOf("a") == "a";
    assert OptionText(cfg, args[0]) == "W";
    assert args[1..] == ["a"];
    OverrunExactly(cfg, "W;", args[0], "W", args[1..]);
    assert Scan(cfg, "W;", "W", args).overrun;
  }

  /** "-b -a" with "+:ba:": the second call no longer sees that a missing argument is to be reported with ':'. It is, if
      "-a" comes first. */
  lemma SignMatters()
    ensures var cfg := Config("+:ba:", None, false, false);
            var both, one := Reading(cfg, ["-b", "-a"]), Reading(cfg, ["-a"]);
            && |both.events| == 2 && both.events[0].ret == 'b' as int && both.events[1].ret == '?' as int
            && |one.events| == 1 && one.events[0].ret == ':' as int
  {
    hide Scan, Decode;
    var cfg := Config("+:ba:", None, false, false);
    SignKinds(cfg);
    hide KindOf;
    var args := ["-b", "-a"];
    assert args[1..] == ["-a"];
    FlagRead(cfg, ":ba:", "-b", ["-a"]);
    FirstOption(cfg, ":ba:", args);
    LacksArgument(cfg, "+:ba:", "-a");
    LacksArgument(cfg, ":ba:", "-a");
  }

  lemma SignKinds(cfg: Config)
    requires cfg.optstring == "+:ba:"
    ensures cfg.FirstOptstring() == ":ba:"
    ensures KindOf(":ba:", 'b') == Flag && KindOf(":ba:", 'a') == KindOf("+:ba:", 'a') == Required
    ensures KindOf(":ba:", 'W') == KindOf("+:ba:", 'W') == Unknown
  {
  }

  /** An element that is used up by its first option. */
  lemma FirstOption(cfg: Config, optstring: string, args: seq<string>)
    requires Decodable(cfg, optstring) && Decodable(cfg, cfg.optstring) && args != []
    requires args[0] != "--" && !NonOption(args[0])
    requires Decode(cfg, optstring, args[0], OptionText(cfg, args[0]), args[1..]).advance == 1
    ensures Scan(cfg, optstring, "", args).events
         == [Decode(cfg, optstring, args[0], OptionText(cfg, args[0]), args[1..]).event]
            + Scan(cfg, cfg.optstring, "", args[1..]).events
  {
    var text := OptionText(cfg, args[0]);
    DecodeProgress(cfg, optstring, args[0], text, args[1..]);
    hide Decode;
    assert Scan(cfg, optstring, "", args) == Scan(cfg, optstring, text, args);
  }

  /** One letter that takes no argument. */
  lemma FlagRead(cfg: Config, optstring: string, element: string, following: seq<string>)
    requires |element| == 2 && element[0] == '-' && element[1] != '-'
    requires Decodable(cfg, optstring) && cfg.longopts == None
    requires KindOf(optstring, element[1]) == Flag
    ensures OptionText(cfg, element) == element[1..] && element[1..] == [element[1]]
    ensures Decode(cfg, optstring, element, element[1..], following)
         == Outcome(Event(element[1] as int, None, None, None, None), "", 1)
  {
    hide KindOf;
  }

  /** The last element is an option without its argument. */
  lemma LacksArgument(cfg: Config, optstring: string, element: string)
    requires Decodable(cfg, optstring) && Decodable(cfg, cfg.optstring) && cfg.longopts == None
    requires element == "-a" && KindOf(optstring, 'a') == Required
    ensures var p := Scan(cfg, optstring, "", [element]);
            |p.events| == 1 && p.events[0].ret == Missing(optstring)
  {
    hide KindOf, Scan;
    assert OptionText(cfg, element) == "a" && [element][1..] == [];
    FirstOption(cfg, optstring, [element]);
    EmptyLine(cfg, cfg.optstring);
  }

  lemma EmptyLine(cfg: Config, optstring: string)
    requires Decodable(cfg, optstring) && Decodable(cfg, cfg.optstring)
    ensures Scan(cfg, optstring, "", []).events == []
  {
  }

  // ---- A caller's loop ----------------------------------------------------------------------

  /** No option has the value -1, which a caller could not tell from the end. */
  ghost predicate NoOptionIsMinusOne(cfg: Config) {
    cfg.longopts.Some? ==> forall p | p in cfg.longopts.value :: p.val != -1
  }

  lemma OptionIsNotTheEnd(cfg: Config, optstring: string, element: string, next: string, following: seq<string>)
    requires |next| > 0 && Decodable(cfg, optstring) && NoOptionIsMinusOne(cfg)
    ensures Decode(cfg, optstring, element, next, following).event.ret != -1
  {
    ShortIsNotTheEnd(cfg, optstring, next, following);
  }

  lemma ShortIsNotTheEnd(cfg: Config, optstring: string, next: string, following: seq<string>)
    requires |next| > 0 && Decodable(cfg, optstring) && NoOptionIsMinusOne(cfg)
    ensures DecodeShort(cfg, optstring, next, following).event.ret != -1
  {
  }

  /** Then no event has it either. */
  lemma {:induction false} EventsAreNotTheEnd(cfg: Config, optstring: string, next: string, rest: seq<string>)
    requires Decodable(cfg, optstring) && Decodable(cfg, cfg.optstring) && (next != "" ==> rest != [])
    requires NoOptionIsMinusOne(cfg)
    ensures forall e | e in Scan(cfg, optstring, next, rest).events :: e.ret != -1
    decreases |rest|, if next != "" then |next| else if rest != [] then |rest[0]| + 1 else 0
  {
    hide Decode;
    if next != "" {
      var o := Decode(cfg, optstring, rest[0], next, rest[1..]);
      DecodeProgress(cfg, optstring, rest[0], next, rest[1..]);
      OptionIsNotTheEnd(cfg, optstring, rest[0], next, rest[1..]);
      if o.advance <= |rest| {
        EventsAreNotTheEnd(cfg, cfg.optstring, o.next, rest[o.advance..]);
      }
    } else if rest == [] || rest[0] == "--" {
    } else if !NonOption(rest[0]) {
      EventsAreNotTheEnd(cfg, optstring, OptionText(cfg, rest[0]), rest);
    } else {
      match cfg.Ordering() {
        case PERMUTE => EventsAreNotTheEnd(cfg, optstring, "", rest[1..]);
        case REQUIRE_ORDER =>
        case RETURN_IN_ORDER => EventsAreNotTheEnd(cfg, cfg.optstring, "", rest[1..]);
      }
    }
  }

  /** The number of events before the first whose value is -1, which a caller takes for the end. */
  function BeforeEnd(events: seq<Event>): (k: nat)
    ensures k <= |events|
  {
    if events == [] || events[0].ret == -1 then 0 else 1 + BeforeEnd(events[1..])
  }

  lemma {:induction false} BeforeEndIs(done: seq<Event>, events: seq<Event>)
    requires done <= events && forall e | e in done :: e.ret != -1
    requires |done| < |events| ==> events[|done|].ret == -1
    ensures BeforeEnd(events) == |done|
  {
    if done != [] {
      BeforeEndIs(done[1..], events[1..]);
    }
  }

  /** With an option whose value is -1, a caller stops at it: of "--x --y" it sees nothing. */
  lemma MinusOneHidesOptions()
    ensures var x, y := LongOption("x", 0, None, -1), LongOption("y", 0, None, 7);
            var p := Reading(Config("", Some([x, y]), false, false), ["--x", "--y"]);
            |p.events| == 2 && p.events[1].ret == 7 && BeforeEnd(p.events) == 0
  {
    var x, y := LongOption("x", 0, None, -1), LongOption("y", 0, None, 7);
    var longopts := [x, y];
    var cfg := Config("", Some(longopts), false, false);
    var args := ["--x", "--y"];
    assert args[1..] == ["--y"] && ["--y"][1..] == [];
    LongFlag(cfg, 0, "--x", "x", ["--y"]);
    LongFlag(cfg, 1, "--y", "y", []);
    hide Scan, Decode;
    FirstOption(cfg, "", args);
    FirstOption(cfg, "", ["--y"]);
    EmptyLine(cfg, "");
  }

  /** The name of a long option that takes no argument. */
  lemma LongFlag(cfg: Config, i: nat, element: string, name: string, following: seq<string>)
    requires cfg.longopts.Some? && i < |cfg.longopts.value| && name != "" && '=' !in name
    requires cfg.longopts.value[i] == LongOption(name, 0, None, cfg.longopts.value[i].val)
    requires forall j | 0 <= j < i :: cfg.longopts.value[j].name != name
    requires |element| > 2 && element[..2] == "--" && element[2..] == name && Decodable(cfg, "")
    ensures !NonOption(element) && element != "--" && OptionText(cfg, element) == name
    ensures Decode(cfg, "", element, name, following)
         == Outcome(Event(cfg.longopts.value[i].val, None, None, Some(i), None), "", 1)
  {
    FirstExactIsLeast(cfg.longopts.value, name, 0);
    NoEquals(name);
  }

  lemma NoEquals(s: string)
    requires '=' !in s
    ensures IndexOf(s, '=') == |s| && NameOf(s) == s
  {
    if s != "" {
      assert forall c | c in s[1..] :: c in s;
      NoEquals(s[1..]);
    }
  }

  lemma BeforeBefore(done: seq<Event>, opts: seq<string>, nonopts: seq<string>,
                     e: Event, o: seq<string>, n: seq<string>, p: Parse)
    ensures Before(done, opts, nonopts, Before([e], o, n, p)) == Before(done + [e], opts + o, nonopts + n, p)
  {
    assert done + ([e] + p.events) == (done + [e]) + p.events;
    assert opts + (o + p.opts) == (opts + o) + p.opts;
    assert nonopts + (n + p.nonopts) == (nonopts + n) + p.nonopts;
  }

  /** What a caller sees of an event: the return value and optarg. */
  function Seen(events: seq<Event>): (r: seq<(int, Option<string>)>)
    ensures |r| == |events|
  {
    seq(|events|, i requires 0 <= i < |events| => (events[i].ret, events[i].optarg))
  }

  /** A run that has reported done, with the rest of the command line as in v, is on the way to all. */
  ghost predicate OnTheWay(cfg: Config, all: Parse, done: seq<Event>, optstring: string, next: string, v: View)
    requires Decodable(cfg, optstring) && Decodable(cfg, cfg.optstring)
  {
    (next != "" ==> v.rest != []) && all == Before(done, v.opts, v.nonopts, Scan(cfg, optstring, next, v.rest))
  }

  /** One call goes one event further on the way. */
  lemma StepOnTheWay(cfg: Config, all: Parse, done: seq<Event>, optstring: string, next: string, v: View)
    requires Decodable(cfg, optstring) && Decodable(cfg, cfg.optstring)
    requires OnTheWay(cfg, all, done, optstring, next, v)
    ensures match OneCall(cfg, optstring, next, v.rest)
            case Finish(o, n) => all == Parse(done, v.opts + o, v.nonopts + n, false)
            case Overrun(e) => all.events == done + [e] && all.overrun
            case Report(e, o, n, next2, rest2) =>
              && OnTheWay(cfg, all, done + [e], cfg.optstring, next2, View(v.before, v.opts + o, v.nonopts + n, rest2))
              && |done| < |all.events|
  {
    CallFollowsScan(cfg, optstring, next, v.rest);
    match OneCall(cfg, optstring, next, v.rest)
    case Finish(o, n) =>
    case Overrun(e) =>
    case Report(e, o, n, next2, rest2) =>
      BeforeBefore(done, v.opts, v.nonopts, e, o, n, Scan(cfg, cfg.optstring, next2, rest2));
  }

  /** One call in a run that has reported done on the way to all. */
  method CallOnce(g: Getopt, ghost all: Parse, ghost done: seq<Event>) returns (ret: int, ghost call: Call)
    requires g.Valid() && OnTheWay(g.cfg, all, done, g.CurrentOptstring(), g.nextchar, g.Current())
    modifies g, g.argv
    ensures g.Elements() == old(g.Elements())
    ensures if call.Finish? then
              && ret == -1 && all.events == done && !all.overrun
              && g.Finished(View(old(g.Current()).before, all.opts, all.nonopts, []))
            else
              && ret == call.event.ret && g.optarg == call.event.optarg && done + [call.event] <= all.events
              && if call.Overrun? then
                   g.optind == g.argv.Length + 1 && all.events == done + [call.event] && all.overrun
                 else
                   && g.Valid() && g.optind <= g.argv.Length && g.Current().before == old(g.Current()).before
                   && OnTheWay(g.cfg, all, done + [call.event], g.CurrentOptstring(), g.nextchar, g.Current())
  {
    ghost var v, optstring, next := g.Current(), g.CurrentOptstring(), g.nextchar;
    StepOnTheWay(g.cfg, all, done, optstring, next, v);
    call := OneCall(g.cfg, optstring, next, v.rest);
    ret := g.GetoptInternal();
  }

  /** A caller's loop: it calls until it gets -1, keeping the values it sees. An option with the value -1 looks
      like the end. */
  method CallUntilEnd(g: Getopt, ghost all: Parse) returns (events: seq<(int, Option<string>)>, overrun: bool)
    requires g.Valid() && OnTheWay(g.cfg, all, [], g.CurrentOptstring(), g.nextchar, g.Current())
    modifies g, g.argv
    ensures g.Elements() == old(g.Elements())
    ensures events == Seen(all.events[..BeforeEnd(all.events)])
    ensures overrun == (all.overrun && BeforeEnd(all.events) == |all.events|)
    ensures BeforeEnd(all.events) == |all.events| ==>
              if overrun then g.optind == g.argv.Length + 1
              else g.Finished(View(old(g.Current()).before, all.opts, all.nonopts, []))
  {
    ghost var done := [];
    events := [];
    while true
      invariant g.Valid() && g.Current().before == old(g.Current().before) && g.Elements() == old(g.Elements())
      invariant OnTheWay(g.cfg, all, done, g.CurrentOptstring(), g.nextchar, g.Current())
      invariant events == Seen(done) && done <= all.events && forall e | e in done :: e.ret != -1
      decreases |all.events| - |done|
    {
      ghost var call;
      var ret;
      ret, call := CallOnce(g, all, done);
      if ret == -1 {
        BeforeEndIs(done, all.events);
        return events, false;
      }
      events := events + [(ret, g.optarg)];
      done := done + [call.event];
      if g.optind > g.argv.Length {
        BeforeEndIs(done, all.events);
        return events, true;
      }
    }
  }

  lemma BeginOnTheWay(cfg: Config, optstring: string, v: View)
    requires Decodable(cfg, optstring) && Decodable(cfg, cfg.optstring) && v.opts == [] && v.nonopts == []
    ensures OnTheWay(cfg, Scan(cfg, optstring, "", v.rest), [], optstring, "", v)
  {
    UnchangedBefore(Scan(cfg, optstring, "", v.rest));
  }

  /** A whole run. Whatever the command line, the loop ends; what it sees is what the reading from left to
      right yields, up to an option with the value -1. If there is none, at the end argv holds first the
      options with their arguments and any "--", then from optind on the other elements, both in the original
      order. The exception is a run that moves optind past argv. Without any arguments, not even a program
      name, there is nothing to report. */
  method Run(cfg: Config, argv: array<string>, first: nat)
    returns (events: seq<(int, Option<string>)>, optind: nat, overrun: bool)
    requires argv.Length > 0 ==> 0 < first <= argv.Length
    requires Decodable(cfg, cfg.optstring) && Decodable(cfg, cfg.FirstOptstring())
    modifies argv
    ensures multiset(argv[..]) == multiset(old(argv[..]))
    ensures if argv.Length == 0 then events == [] && optind == first && !overrun
            else
              var p := Reading(cfg, old(argv[first..]));
              && events == Seen(p.events[..BeforeEnd(p.events)])
              && overrun == (p.overrun && BeforeEnd(p.events) == |p.events|)
              && (NoOptionIsMinusOne(cfg) ==> BeforeEnd(p.events) == |p.events|)
              && (BeforeEnd(p.events) == |p.events| ==>
                    if overrun then optind == argv.Length + 1
                    else argv[..] == old(argv[..first]) + p.opts + p.nonopts && optind == first + |p.opts|)
  {
    if argv.Length < 1 {
      return [], first, false;
    }
    var g := new Getopt(cfg, argv, first);
    BeginOnTheWay(cfg, cfg.FirstOptstring(), g.Current());
    ghost var all := Reading(cfg, argv[first..]);
    if NoOptionIsMinusOne(cfg) {
      EventsAreNotTheEnd(cfg, cfg.FirstOptstring(), "", argv[first..]);
      BeforeEndIs(all.events, all.events);
    }
    events, overrun := CallUntilEnd(g, all);
    optind := g.optind;
    if !overrun && BeforeEnd(all.events) == |all.events| {
      Joined(argv[..], first, optind, all.opts, all.nonopts);
    }
  }

  lemma Joined(args: seq<string>, first: nat, end: nat, opts: seq<string>, nonopts: seq<string>)
    requires first <= end <= |args| && args[first..end] == opts && args[end..] == nonopts
    ensures args == args[..first] + opts + nonopts && end == first + |opts|
  {
  }
}
