/** lib/getopt.c: _getopt_internal, which decodes one option per call and permutes argv as it goes. The
    branch without _LIBC; messages to stderr are not modelled. */
module Getopt {
  import opened GetoptSpec
  import opened GetoptExchange

  /** my_index. */
  method MyIndex(s: string, c: char) returns (i: nat)
    ensures i == IndexOf(s, c) && (i < |s| ==> s[i] == c)
  {
    i := 0;
    while i < |s| && s[i] != c
      invariant i <= |s| && IndexOf(s, c) == i + IndexOf(s[i..], c)
    {
      assert s[i..][1..] == s[i + 1..];
      i := i + 1;
    }
  }

  /** The loop over the long options: an exact match ends it, and a second abbreviation makes the name
      ambiguous unless both mean the same. */
  method FindLong(longopts: seq<LongOption>, name: string, strict: bool) returns (found: Found)
    ensures found == Lookup(longopts, name, strict)
  {
    var pfound, ambig := NotFound, false;
    var i := 0;
    while i < |longopts|
      invariant i <= |longopts|
      invariant FirstExact(longopts, name, 0) == FirstExact(longopts, name, i)
      invariant pfound == NotFound ==> FirstPrefixed(longopts, name, 0) == FirstPrefixed(longopts, name, i)
      invariant pfound == NotFound ==> !ambig
      invariant pfound != NotFound ==> pfound == FoundAt(FirstPrefixed(longopts, name, 0)) && pfound.index < i
      invariant pfound != NotFound ==>
                  (ambig <==> exists j | pfound.index < j < i ::
                     name <= longopts[j].name && (strict || Differs(longopts[pfound.index], longopts[j])))
    {
      var p := longopts[i];
      if name <= p.name {
        if |name| == |p.name| {
          return FoundAt(i);
        } else if pfound == NotFound {
          pfound := FoundAt(i);
        } else if strict || Differs(longopts[pfound.index], p) {
          ambig := true;
        }
      }
      i := i + 1;
    }
    found := if ambig then Ambiguous else pfound;
  }

  datatype Position = Ended | Described | AtOption

  /** argv between two calls: the elements before the first one looked at, the options passed with their
      arguments, the elements skipped, and the elements still to be looked at. In memory the options passed
      since the last exchange lie behind the skipped elements. */
  datatype View = View(before: seq<string>, opts: seq<string>, nonopts: seq<string>, rest: seq<string>)
  {
    function Pass(k: nat): View
      requires k <= |rest|
    {
      View(before, opts + rest[..k], nonopts, rest[k..])
    }

    function Skip(k: nat): View
      requires k <= |rest|
    {
      View(before, opts, nonopts + rest[..k], rest[k..])
    }

    /** Everything left is skipped, but for the first k elements. */
    function End(k: nat): View
      requires k <= |rest|
    {
      View(before, opts + rest[..k], nonopts + rest[k..], [])
    }
  }

  class Getopt {
    const cfg: Config
    const argv: array<string>

    var optind: nat
    var initialized: bool
    var firstNonopt: nat
    var lastNonopt: nat
    /** The unread part of argv[optind]; empty stands for NULL as well. */
    var nextchar: string
    var ordering: Ordering

    var optarg: Option<string>
    var optopt: int
    var longind: nat
    var flags: map<nat, int>

    /** What the call has stored for its caller. */
    ghost predicate Reported(e: Event, oldOptopt: int, oldLongind: nat, oldFlags: map<nat, int>)
      reads this
    {
      && optarg == e.optarg
      && optopt == (if e.optopt.Some? then e.optopt.value else oldOptopt)
      && longind == (if e.longind.Some? then e.longind.value else oldLongind)
      && flags == (if e.flag.Some? then oldFlags[e.flag.value.0 := e.flag.value.1] else oldFlags)
    }

    /** A call that returns ret has had the effect o, optind having been base. */
    ghost predicate Performed(o: Outcome, ret: int, base: int, oldOptopt: int, oldLongind: nat, oldFlags: map<nat, int>)
      reads this
    {
      && ret == o.event.ret && nextchar == o.next && optind == base + o.advance
      && Reported(o.event, oldOptopt, oldLongind, oldFlags)
    }

    // ---- Decoding one option; args is the contents of argv, which decoding does not change ---

    /** A long option that has been found: nextchar still holds its text, optind is past it. */
    method TakeFound(args: seq<string>, optstring: string, i: nat, report: bool, ghost used: nat) returns (ret: int)
      requires cfg.longopts.Some? && i < |cfg.longopts.value| && used <= optind <= |args|
      modifies this`optind, this`nextchar, this`optarg, this`optopt, this`longind, this`flags
      ensures var o := DecodeFound(optstring, cfg.longopts.value[i], i, old(nextchar), args[old(optind)..], used,
                                   old(optarg), report);
              Performed(o, ret, old(optind) - used, old(optopt), old(longind), old(flags))
    {
      var p := cfg.longopts.value[i];
      var nameend := MyIndex(nextchar, '=');
      if nameend < |nextchar| {
        if p.hasArg != 0 {
          optarg := Some(nextchar[nameend + 1..]);
        } else {
          nextchar := "";
          if report {
            optopt := p.val;
          }
          return ERROR;
        }
      } else if p.hasArg == 1 {
        if optind < |args| {
          optarg := Some(args[optind]);
          optind := optind + 1;
        } else {
          nextchar := "";
          if report {
            optopt := p.val;
          }
          return if At(optstring, 0) == ':' then ':' as int else ERROR;
        }
      }
      nextchar := "";
      longind := i;
      if p.flag.Some? {
        flags := flags[p.flag.value := p.val];
        return 0;
      }
      return p.val;
    }

    /** The POSIX option -W: its argument is read as a long option. */
    method TakeW(args: seq<string>, optstring: string, c: char, ghost used: nat) returns (ret: int)
      requires cfg.longopts.Some? && used <= optind <= |args| && optarg == None && c == 'W'
      requires if nextchar != "" then used == 0 && optind < |args| else used == 1
      modifies this`optind, this`nextchar, this`optarg, this`optopt, this`longind, this`flags
      ensures var o := if old(nextchar) != "" then DecodeW(cfg, optstring, old(nextchar), args[old(optind) + 1..], 1)
                       else if old(optind) == |args|
                       then Outcome(Event(Missing(optstring), None, Some(c as int), None, None), "", 1)
                       else DecodeW(cfg, optstring, args[old(optind)], args[old(optind) + 1..], 2);
              Performed(o, ret, old(optind) - used, old(optopt), old(longind), old(flags))
    {
      hide Lookup, DecodeFound, IndexOf;
      if nextchar != "" {
        optarg := Some(nextchar);
        optind := optind + 1;
      } else if optind == |args| {
        optopt := c as int;
        return if At(optstring, 0) == ':' then ':' as int else ERROR;
      } else {
        optarg := Some(args[optind]);
        optind := optind + 1;
      }
      nextchar := optarg.value;
      var nameend := MyIndex(nextchar, '=');
      var found := FindLong(cfg.longopts.value, nextchar[..nameend], true);
      match found {
        case Ambiguous =>
          nextchar := "";
          optind := optind + 1;
          return ERROR;
        case FoundAt(i) =>
          ret := TakeFound(args, optstring, i, false, used + 1);
        case NotFound =>
          nextchar := "";
          return 'W' as int;
      }
    }

    /** The argument of short option c: the rest of the element or, if it is required, the next element. */
    method TakeArgument(args: seq<string>, optstring: string, c: char, optional: bool) returns (ret: int)
      requires optind <= |args| && optarg == None && (nextchar != "" ==> optind < |args|)
      modifies this`optind, this`nextchar, this`optarg, this`optopt
      ensures nextchar == ""
      ensures if old(nextchar) != "" then
                ret == c as int && optarg == Some(old(nextchar)) && optind == old(optind) + 1 && optopt == old(optopt)
              else if optional then
                ret == c as int && optarg == None && optind == old(optind) && optopt == old(optopt)
              else if old(optind) == |args| then
                ret == Missing(optstring) && optarg == None && optind == old(optind) && optopt == c as int
              else
                ret == c as int && optarg == Some(args[old(optind)]) && optind == old(optind) + 1
                && optopt == old(optopt)
    {
      ret := c as int;
      if optional {
        if nextchar != "" {
          optarg := Some(nextchar);
          optind := optind + 1;
        } else {
          optarg := None;
        }
        nextchar := "";
      } else {
        if nextchar != "" {
          optarg := Some(nextchar);
          optind := optind + 1;
        } else if optind == |args| {
          optopt := c as int;
          ret := if At(optstring, 0) == ':' then ':' as int else ERROR;
        } else {
          optarg := Some(args[optind]);
          optind := optind + 1;
        }
        nextchar := "";
      }
    }

    /** The next short option. */
    method TakeShort(args: seq<string>, optstring: string) returns (ret: int)
      requires Decodable(cfg, optstring) && optind < |args| && nextchar != "" && optarg == None
      modifies this`optind, this`nextchar, this`optarg, this`optopt, this`longind, this`flags
      ensures var o := DecodeShort(cfg, optstring, old(nextchar), args[old(optind) + 1..]);
              Performed(o, ret, old(optind), old(optopt), old(longind), old(flags))
    {
      hide DecodeW, IndexOf;
      var c := nextchar[0];
      nextchar := nextchar[1..];
      var temp := MyIndex(optstring, c);
      ghost var kind := KindOf(optstring, c);
      ghost var following := args[optind + 1..];
      if nextchar == "" {
        optind := optind + 1;
      }
      if temp == |optstring| || c == ':' {
        assert kind == Unknown;
        optopt := c as int;
        return ERROR;
      }
      if optstring[temp] == 'W' && At(optstring, temp + 1) == ';' {
        assert kind == LongViaW;
        assert nextchar == "" && optind < |args| ==>
            following[0] == args[optind] && following[1..] == args[optind + 1..];
        ret := TakeW(args, optstring, c, if nextchar == "" then 1 else 0);
      } else if At(optstring, temp + 1) == ':' {
        assert kind == if At(optstring, temp + 2) == ':' then OptionalArg else Required;
        ret := TakeArgument(args, optstring, c, At(optstring, temp + 2) == ':');
      } else {
        assert kind == Flag;
        ret := c as int;
      }
    }

    /** An element that may be a long option; one that is none may still be read as short options. */
    method TakeLong(args: seq<string>, optstring: string) returns (ret: int)
      requires Decodable(cfg, optstring) && cfg.longopts.Some?
      requires optind < |args| && nextchar != "" && optarg == None
      modifies this`optind, this`nextchar, this`optarg, this`optopt, this`longind, this`flags
      ensures var o := DecodeLong(cfg, optstring, args[old(optind)], old(nextchar), args[old(optind) + 1..]);
              Performed(o, ret, old(optind), old(optopt), old(longind), old(flags))
    {
      hide Lookup, DecodeFound, DecodeShort;
      var nameend := MyIndex(nextchar, '=');
      var found := FindLong(cfg.longopts.value, nextchar[..nameend], cfg.longOnly);
      match found {
        case Ambiguous =>
          nextchar := "";
          optind := optind + 1;
          optopt := 0;
          ret := ERROR;
        case FoundAt(i) =>
          optind := optind + 1;
          ret := TakeFound(args, optstring, i, true, 1);
        case NotFound =>
          var temp := MyIndex(optstring, nextchar[0]);
          if !cfg.longOnly || At(args[optind], 1) == '-' || temp == |optstring| {
            nextchar := "";
            optind := optind + 1;
            optopt := 0;
            ret := ERROR;
          } else {
            ret := TakeShort(args, optstring);
          }
      }
    }

    /** The second half of _getopt_internal: decode the current option element from nextchar on. */
    method TakeOption(args: seq<string>, optstring: string) returns (ret: int)
      requires Decodable(cfg, optstring) && optind < |args| && nextchar != "" && optarg == None
      modifies this`optind, this`nextchar, this`optarg, this`optopt, this`longind, this`flags
      ensures var o := Decode(cfg, optstring, args[old(optind)], old(nextchar), args[old(optind) + 1..]);
              Performed(o, ret, old(optind), old(optopt), old(longind), old(flags))
    {
      hide DecodeLong, DecodeShort;
      var isLong := MayBeLong(args[optind], optstring);
      if isLong {
        ret := TakeLong(args, optstring);
      } else {
        ret := TakeShort(args, optstring);
      }
    }

    method MayBeLong(element: string, optstring: string) returns (isLong: bool)
      ensures isLong == LongForm(cfg, optstring, element)
    {
      isLong := false;
      if cfg.longopts.Some? {
        var temp := MyIndex(optstring, At(element, 1));
        isLong := At(element, 1) == '-' || (cfg.longOnly && (|element| > 2 || temp == |optstring|));
      }
    }

    // ---- The state between calls ------------------------------------------------------------

    ghost const start: nat

    /** Before the first call: optind is 0 or the caller's choice of the first element to look at. */
    constructor (cfg: Config, argv: array<string>, optind: nat)
      requires argv.Length > 0 && optind <= argv.Length
      requires Decodable(cfg, cfg.optstring) && Decodable(cfg, cfg.FirstOptstring())
      ensures Valid() && this.cfg == cfg && this.argv == argv
      ensures start == (if optind == 0 then 1 else optind)
      ensures Current() == View(argv[..start], [], [], argv[start..])
      ensures nextchar == "" && CurrentOptstring() == cfg.FirstOptstring()
    {
      this.cfg, this.argv, this.optind := cfg, argv, optind;
      initialized, firstNonopt, lastNonopt, nextchar, ordering := false, 0, 0, "", PERMUTE;
      optarg, optopt, longind, flags := None, ERROR, 0, map[];
      start := if optind == 0 then 1 else optind;
    }

    /** What holds between two calls, if the caller changes neither argv nor optind. */
    ghost predicate Valid()
      reads this, argv
    {
      && 0 < start <= argv.Length
      && Decodable(cfg, cfg.optstring) && Decodable(cfg, cfg.FirstOptstring())
      && if !initialized then nextchar == "" && (optind == start || (optind == 0 && start == 1))
         else Running() && (nextchar != "" ==> optind < argv.Length && !NonOption(argv[optind]))
    }

    ghost predicate Running()
      reads this
    {
      && start <= firstNonopt <= lastNonopt <= optind <= argv.Length
      && ordering == cfg.Ordering()
      && (ordering != PERMUTE ==> firstNonopt == lastNonopt == start)
    }

    ghost function CurrentOptstring(): string
      reads this
    {
      if initialized then cfg.optstring else cfg.FirstOptstring()
    }

    /** How argv divides between two calls. */
    ghost function Division(): View
      reads this, argv
      requires Running()
    {
      View(argv[..start], argv[start..firstNonopt] + argv[lastNonopt..optind],
           argv[firstNonopt..lastNonopt], argv[optind..])
    }

    ghost function Current(): View
      reads this, argv
      requires Valid()
    {
      if initialized then Division() else View(argv[..start], [], [], argv[start..])
    }

    /** A run has left argv so that v describes it: the options, then what is left to the caller. */
    ghost predicate Finished(v: View)
      reads this, argv
    {
      && start <= optind <= argv.Length && v.rest == []
      && argv[..start] == v.before && argv[start..optind] == v.opts && argv[optind..] == v.nonopts
    }

    /** The elements of argv, in any order. */
    ghost function Elements(): multiset<string>
      reads argv
    {
      multiset(argv[..])
    }

    // ---- Permuting argv ---------------------------------------------------------------------
    method Exchange()
      requires start <= firstNonopt <= lastNonopt <= optind <= argv.Length
      modifies this`firstNonopt, this`lastNonopt, argv
      ensures Elements() == old(Elements())
      ensures start <= firstNonopt <= lastNonopt == optind
      ensures argv[start..firstNonopt] == old(argv[start..firstNonopt] + argv[lastNonopt..optind])
      ensures argv[firstNonopt..lastNonopt] == old(argv[firstNonopt..lastNonopt])
      ensures argv[..start] == old(argv[..start]) && argv[optind..] == old(argv[optind..])
    {
      hide Exchanged;
      ExchangedParts(argv[..], start, firstNonopt, lastNonopt, optind);
      ExchangeSegments(argv, firstNonopt, lastNonopt, optind);
      firstNonopt := firstNonopt + (optind - lastNonopt);
      lastNonopt := optind;
    }

    /** Rational values for the record of skipped elements, should the caller have moved optind back. */
    method BringBack()
      modifies this`firstNonopt, this`lastNonopt
      ensures lastNonopt == if old(lastNonopt) > optind then optind else old(lastNonopt)
      ensures firstNonopt == if old(firstNonopt) > optind then optind else old(firstNonopt)
    {
      if lastNonopt > optind {
        lastNonopt := optind;
      }
      if firstNonopt > optind {
        firstNonopt := optind;
      }
    }

    /** If options follow skipped elements, put the options first; the record of skipped elements, empty or
        not, then ends at optind. */
    method MoveOptions()
      requires Running() && ordering == PERMUTE
      modifies this`firstNonopt, this`lastNonopt, argv
      ensures Elements() == old(Elements())
      ensures start <= firstNonopt <= optind
      ensures View(argv[..start], argv[start..firstNonopt], argv[firstNonopt..optind], argv[optind..])
                == old(Division())
    {
      hide Elements;
      if firstNonopt != lastNonopt && lastNonopt != optind {
        Exchange();
      } else if lastNonopt != optind {
        firstNonopt := optind;
      }
    }

    /** Skips elements that are not options and records them. */
    method SkipElements()
      requires firstNonopt <= optind <= argv.Length
      modifies this`optind, this`lastNonopt
      ensures optind == old(optind) + Leading(argv[old(optind)..]) && lastNonopt == optind
    {
      ghost var args := argv[..];
      while optind < argv.Length && NonOption(argv[optind])
        invariant old(optind) <= optind <= argv.Length
        invariant Leading(args[old(optind)..]) == optind - old(optind) + Leading(args[optind..])
      {
        assert args[optind..][1..] == args[optind + 1..];
        optind := optind + 1;
      }
      assert args[old(optind)..] == argv[old(optind)..];
      lastNonopt := optind;
    }

    /** Skipping extends the record of skipped elements, once that ends at optind. */
    method SkipAhead()
      requires Running() && ordering == PERMUTE && lastNonopt == optind
      modifies this`optind, this`lastNonopt
      ensures Running() && lastNonopt == optind && Division() == old(Division()).Skip(Leading(old(Division()).rest))
    {
      hide Leading;
      ghost var args, end, k := argv[..], optind, Leading(argv[optind..]);
      assert Division() == View(args[..start], args[start..firstNonopt], args[firstNonopt..end], args[end..]) by {
        assert args[end..end] == [] && args[start..firstNonopt] + [] == args[start..firstNonopt];
      }
      Extend(args, start, firstNonopt, end, k);
      SkipElements();
    }

    /** The block for PERMUTE, which does nothing in the other orderings. */
    method Settle()
      requires Running()
      modifies this`firstNonopt, this`lastNonopt, this`optind, argv
      ensures Elements() == old(Elements())
      ensures Running() && (ordering == PERMUTE ==> lastNonopt == optind)
      ensures Division() == old(Division()).Skip(if ordering == PERMUTE then Leading(old(Division()).rest) else 0)
    {
      hide Elements;
      BringBack();
      if ordering == PERMUTE {
        MoveOptions();
        lastNonopt := optind;
        SkipAhead();
      }
    }

    /** What was passed since the last exchange comes before what was skipped. */
    method PutOptionsFirst()
      requires start <= firstNonopt <= lastNonopt < optind <= argv.Length
      modifies this`firstNonopt, this`lastNonopt, argv
      ensures Elements() == old(Elements())
      ensures start <= firstNonopt <= optind
      ensures argv[start..firstNonopt] == old(argv[start..firstNonopt] + argv[lastNonopt..optind])
      ensures argv[firstNonopt..optind] == old(argv[firstNonopt..lastNonopt])
      ensures argv[..start] == old(argv[..start]) && argv[optind..] == old(argv[optind..])
    {
      hide Elements;
      if firstNonopt != lastNonopt && lastNonopt != optind {
        Exchange();
      } else if firstNonopt == lastNonopt {
        firstNonopt := optind;
      }
    }

    /** "--": skip it like an option, exchange it with the skipped elements, and skip all the rest. */
    method EndOptions()
      requires Running() && optind < argv.Length
      modifies this`firstNonopt, this`lastNonopt, this`optind, argv
      ensures Elements() == old(Elements())
      ensures start <= firstNonopt <= lastNonopt == optind == argv.Length
      ensures View(argv[..start], argv[start..firstNonopt], argv[firstNonopt..], []) == old(Division()).End(1)
    {
      hide Elements;
      Advance(argv[..], start, firstNonopt, lastNonopt, optind, 1);
      optind := optind + 1;
      PutOptionsFirst();
      assert argv[firstNonopt..] == argv[firstNonopt..optind] + argv[optind..];
      lastNonopt := argv.Length;
      optind := argv.Length;
    }

    // ---- One call ---------------------------------------------------------------------------

    /** _getopt_initialize, on the first call. */
    method Initialize() returns (optstring: string)
      requires Valid() && !initialized
      modifies this`optind, this`initialized, this`firstNonopt, this`lastNonopt, this`nextchar, this`ordering
      ensures Valid() && initialized && nextchar == "" && optstring == cfg.FirstOptstring()
      ensures optind == firstNonopt == lastNonopt == start
    {
      if optind == 0 {
        optind := 1;
      }
      firstNonopt, lastNonopt := optind, optind;
      nextchar := "";
      optstring := cfg.optstring;
      if At(optstring, 0) == '-' {
        ordering := RETURN_IN_ORDER;
        optstring := optstring[1..];
      } else if At(optstring, 0) == '+' {
        ordering := REQUIRE_ORDER;
        optstring := optstring[1..];
      } else if cfg.posixlyCorrect {
        ordering := REQUIRE_ORDER;
      } else {
        ordering := PERMUTE;
      }
      initialized := true;
    }

    /** The outcome of looking at the first element of v.rest. */
    ghost predicate Reached(position: Position, ret: int, v: View)
      reads this, argv
    {
      match position
      case Ended =>
        && ret == -1
        && if v.rest != [] && v.rest[0] == "--" then Finished(v.End(1))
           else (v.rest == [] || (NonOption(v.rest[0]) && ordering == REQUIRE_ORDER)) && Finished(v.End(0))
      case Described =>
        && v.rest != [] && v.rest[0] != "--" && NonOption(v.rest[0]) && ordering != REQUIRE_ORDER
        && ret == 1 && optarg == Some(v.rest[0]) && nextchar == ""
        && (ordering != PERMUTE ==> Running() && Division() == v.Pass(1))
      case AtOption =>
        && v.rest != [] && v.rest[0] != "--" && !NonOption(v.rest[0])
        && nextchar == OptionText(cfg, v.rest[0])
        && Running() && Division() == v
    }

    /** After "--" everything is passed or skipped. */
    method EndDashes()
      requires Running() && optind < argv.Length
      modifies this`firstNonopt, this`lastNonopt, this`optind, argv
      ensures Elements() == old(Elements())
      ensures start <= firstNonopt <= lastNonopt == optind == argv.Length
      ensures old(Division()).End(1)
           == View(argv[..start], argv[start..firstNonopt] + argv[lastNonopt..], argv[firstNonopt..lastNonopt], [])
    {
      hide Elements;
      EndOptions();
      assert argv[start..firstNonopt] + argv[lastNonopt..] == argv[start..firstNonopt];
    }

    /** At the end of argv, optind is set to the first skipped element. */
    method LeaveRest(ghost v: View)
      requires start <= firstNonopt <= lastNonopt <= optind == argv.Length
      requires firstNonopt != lastNonopt ==> lastNonopt == optind
      requires v == View(argv[..start], argv[start..firstNonopt] + argv[lastNonopt..],
                             argv[firstNonopt..lastNonopt], [])
      modifies this`optind
      ensures Finished(v)
    {
      if firstNonopt != lastNonopt {
        optind := firstNonopt;
      }
    }

    /** An element that is not an option ends the run, or is described. */
    method ReachElement() returns (position: Position, ret: int)
      requires Running() && nextchar == "" && optind < argv.Length
      requires NonOption(argv[optind]) && argv[optind] != "--"
      modifies this`optind, this`optarg
      ensures Reached(position, ret, old(Division())) && position != AtOption
    {
      hide NonOption, OptionText;
      if ordering != PERMUTE {
        PlainView(argv[..], start, optind);
      }
      if ordering == REQUIRE_ORDER {
        return Ended, -1;
      }
      optarg := Some(argv[optind]);
      optind := optind + 1;
      return Described, 1;
    }

    /** What is done with the element that optind has reached. */
    method Reach() returns (position: Position, ret: int)
      requires Running() && nextchar == "" && (ordering == PERMUTE ==> lastNonopt == optind)
      modifies this`firstNonopt, this`lastNonopt, this`optind, this`nextchar, this`optarg, argv
      ensures Elements() == old(Elements())
      ensures Reached(position, ret, old(Division()))
      ensures position == AtOption ==> optarg == old(optarg)
    {
      hide Elements;
      ghost var last := Division().End(0);
      hide NonOption, OptionText;
      if optind != argv.Length && argv[optind] == "--" {
        last := Division().End(1);
        EndDashes();
      }
      if optind == argv.Length {
        LeaveRest(last);
        return Ended, -1;
      }
      if NonOption(argv[optind]) {
        position, ret := ReachElement();
        return;
      }
      nextchar := OptionText(cfg, argv[optind]);
      return AtOption, 0;
    }

    /** The effect of a call on a run that stood at v. */
    ghost predicate Effect(call: Call, v: View, ret: int, oldOptopt: int, oldLongind: nat, oldFlags: map<nat, int>)
      reads this, argv
    {
      match call
      case Finish(o, n) =>
        ret == -1 && Finished(View(v.before, v.opts + o, v.nonopts + n, []))
      case Report(e, o, n, next, rest) =>
        && ret == e.ret && Reported(e, oldOptopt, oldLongind, oldFlags)
        && Valid() && initialized && nextchar == next
        && Division() == View(v.before, v.opts + o, v.nonopts + n, rest)
      case Overrun(e) =>
        ret == e.ret && Reported(e, oldOptopt, oldLongind, oldFlags) && optind == argv.Length + 1
    }

    /** Decoding o, with optind at a place in args and nextchar there, has the effect of CallOf. */
    lemma OptionEffect(o: Outcome, v: View, skipped: seq<string>, args: seq<string>, at: nat, ret: int,
                       oldOptopt: int, oldLongind: nat, oldFlags: map<nat, int>)
      requires args == argv[..] && 0 < start <= firstNonopt <= lastNonopt <= at < |args| && initialized
      requires ordering == cfg.Ordering() && (ordering != PERMUTE ==> firstNonopt == lastNonopt == start)
      requires Decodable(cfg, cfg.optstring) && Decodable(cfg, cfg.FirstOptstring())
      requires !NonOption(args[at]) && (o.advance != 0 ==> o.next == "") && at + o.advance <= |args| + 1
      requires Performed(o, ret, at, oldOptopt, oldLongind, oldFlags)
      requires args[..start] == v.before && args[start..firstNonopt] + args[lastNonopt..at] == v.opts
      requires args[firstNonopt..lastNonopt] == v.nonopts + skipped
      ensures Effect(CallOf(o, skipped, args[at..]), v, ret, oldOptopt, oldLongind, oldFlags)
    {
      hide Reported, NonOption, KindOf;
      if at + o.advance <= |args| {
        Advance(args, start, firstNonopt, lastNonopt, at, o.advance);
      }
    }

    /** The second half of _getopt_internal, in a call that has skipped some elements. */
    method DecodeHere(optstring: string, ghost v: View, ghost skipped: seq<string>) returns (ret: int)
      requires Valid() && initialized && nextchar != "" && optarg == None && Decodable(cfg, optstring)
      requires Division() == View(v.before, v.opts, v.nonopts + skipped, Division().rest)
      modifies this`optind, this`nextchar, this`optarg, this`optopt, this`longind, this`flags
      ensures Effect(OptionCall(cfg, optstring, old(nextchar), skipped, old(Division()).rest), v, ret,
                     old(optopt), old(longind), old(flags))
    {
      hide Decode;
      var args := argv[..];
      ghost var at, next := optind, nextchar;
      RestOf(args, at);
      ghost var o := Decode(cfg, optstring, args[at], next, args[at + 1..]);
      DecodeFits(cfg, optstring, args[at], next, args[at + 1..]);
      ret := TakeOption(args, optstring);
      OptionEffect(o, v, skipped, args, at, ret, old(optopt), old(longind), old(flags));
    }

    /** The first half of _getopt_internal: advance to the next element that is to be decoded. */
    method NextElement() returns (position: Position, ret: int)
      requires Running() && nextchar == ""
      modifies this`firstNonopt, this`lastNonopt, this`optind, this`nextchar, this`optarg, argv
      ensures Elements() == old(Elements())
      ensures Reached(position, ret, old(Division()).Skip(
                        if ordering == PERMUTE then Leading(old(Division()).rest) else 0))
      ensures position == AtOption ==> optarg == old(optarg)
    {
      hide Elements;
      Settle();
      position, ret := Reach();
    }

    lemma NextEffect(v: View, k: nat, call: Call, position: Position, ret: int)
      requires Decodable(cfg, cfg.optstring) && Decodable(cfg, cfg.FirstOptstring()) && initialized && start > 0
      requires k == (if ordering == PERMUTE then Leading(v.rest) else 0) && ordering == cfg.Ordering()
      requires IsBoundaryCall(cfg, call, v.rest, k) && Reached(position, ret, v.Skip(k))
      ensures position != AtOption ==> Effect(call, v, ret, optopt, longind, flags)
      ensures position == AtOption ==>
                && k < |v.rest| && v.rest[k] != "--" && !NonOption(v.rest[k])
                && nextchar == OptionText(cfg, v.rest[k])
                && Valid() && Division() == v.Skip(k)
    {
      assert v.rest[k..] != [] ==> v.rest[k..][0] == v.rest[k];
      match position {
        case Ended =>
          if k < |v.rest| && v.rest[k] == "--" {
            DashesView(v, k);
          } else {
            ElementsView(v, k);
          }
        case Described =>
          DescribedView(v);
        case AtOption =>
      }
    }

    /** A call that finds nothing left to decode in the current element. */
    method CallAtBoundary(optstring: string) returns (ret: int)
      requires Valid() && initialized && nextchar == "" && optarg == None && Decodable(cfg, optstring)
      modifies this`firstNonopt, this`lastNonopt, this`optind, this`nextchar, this`optarg, this`optopt, this`longind,
               this`flags, argv
      ensures Elements() == old(Elements())
      ensures Effect(OneCall(cfg, optstring, "", old(Division()).rest), old(Division()), ret,
                     old(optopt), old(longind), old(flags))
    {
      hide Decode, Leading, Reached, CallOf, Effect, Elements;
      ghost var v := Division();
      ghost var k := if ordering == PERMUTE then Leading(v.rest) else 0;
      ghost var call := OneCall(cfg, optstring, "", v.rest);
      var position;
      position, ret := NextElement();
      NextEffect(v, k, call, position, ret);
      if position == AtOption {
        ret := DecodeHere(optstring, v, v.rest[..k]);
      }
    }

    /** _getopt_internal: the first call starts the run, and every call does what OneCall says. */
    method GetoptInternal() returns (ret: int)
      requires Valid()
      modifies this, argv
      ensures Elements() == old(Elements())
      ensures Effect(OneCall(cfg, old(CurrentOptstring()), old(nextchar), old(Current()).rest), old(Current()), ret,
                     old(optopt), old(longind), old(flags))
    {
      hide Elements;
      hide Decode, Effect;
      ghost var v := Current();
      optarg := None;
      var optstring := cfg.optstring;
      if !initialized {
        optstring := Initialize();
        assert Division() == v;
      }
      if nextchar == "" {
        ret := CallAtBoundary(optstring);
      } else {
        assert v.nonopts + [] == v.nonopts;
        ret := DecodeHere(optstring, v, []);
      }
    }
  }

  // ---- Views --------------------------------------------------------------------------------

  /** What OneCall says of a call that does not come to an option. */
  ghost predicate IsBoundaryCall(cfg: Config, call: Call, rest: seq<string>, k: nat) {
    k <= |rest| &&
    if k == |rest| then call == Finish([], rest)
    else if rest[k] == "--" then call == Finish(["--"], rest[..k] + rest[k + 1..])
    else if !NonOption(rest[k]) then true
    else if cfg.Ordering() == REQUIRE_ORDER then call == Finish([], rest)
    else k == 0 && cfg.Ordering() == RETURN_IN_ORDER
         && call == Report(NonOptionEvent(rest[0]), rest[..1], [], "", rest[1..])
  }

  /** Nothing has been skipped. */
  lemma PlainView(args: seq<string>, start: nat, at: nat)
    requires start <= at < |args|
    ensures var v := View(args[..start], args[start..start] + args[start..at], args[start..start], args[at..]);
            && v.End(0) == View(args[..start], args[start..at], args[at..], [])
            && v.Pass(1)
               == View(args[..start], args[start..start] + args[start..at + 1], args[start..start], args[at + 1..])
            && v.rest[0] == args[at]
  {
  }

  lemma DashesView(v: View, k: nat)
    requires k < |v.rest|
    ensures v.Skip(k).End(1) == View(v.before, v.opts + [v.rest[k]], v.nonopts + (v.rest[..k] + v.rest[k + 1..]), [])
  {
    var tail := v.rest[k..];
    assert tail[..1] == [v.rest[k]] && tail[1..] == v.rest[k + 1..];
    assert (v.nonopts + v.rest[..k]) + v.rest[k + 1..] == v.nonopts + (v.rest[..k] + v.rest[k + 1..]);
  }

  lemma ElementsView(v: View, k: nat)
    requires k <= |v.rest|
    ensures v.Skip(k).End(0) == View(v.before, v.opts + [], v.nonopts + v.rest, [])
  {
    assert v.rest[k..][0..] == v.rest[k..] && v.rest[k..][..0] == [];
    assert (v.nonopts + v.rest[..k]) + v.rest[k..] == v.nonopts + v.rest;
  }

  lemma DescribedView(v: View)
    requires v.rest != []
    ensures v.Skip(0) == v && v.Pass(1) == View(v.before, v.opts + v.rest[..1], v.nonopts + [], v.rest[1..])
  {
  }

  lemma RestOf(args: seq<string>, at: nat)
    requires at < |args|
    ensures args[at..] != [] && args[at..][0] == args[at] && args[at..][1..] == args[at + 1..]
  {
  }

  lemma Advance(args: seq<string>, start: nat, first: nat, last: nat, end: nat, k: nat)
    requires start <= first <= last <= end && end + k <= |args|
    ensures args[start..first] + args[last..end + k] == (args[start..first] + args[last..end]) + args[end..][..k]
    ensures args[end + k..] == args[end..][k..]
  {
  }

  lemma Extend(args: seq<string>, start: nat, first: nat, end: nat, k: nat)
    requires start <= first <= end && end + k <= |args|
    ensures View(args[..start], args[start..first] + args[end + k..end + k], args[first..end + k], args[end + k..])
         == View(args[..start], args[start..first], args[first..end], args[end..]).Skip(k)
  {
  }
}
