/** lib/getopt.c: the permuted command line means the same as the original one. */
module GetoptReread {
  import opened GetoptSpec

  // ---- Options without their argument -------------------------------------------------------

  /** A long option that requires an argument, without '=' and with nothing after it. */
  predicate LongLacks(cfg: Config, text: string, strict: bool, following: seq<string>)
    requires cfg.longopts.Some?
  {
    var found := Lookup(cfg.longopts.value, NameOf(text), strict);
    found.FoundAt? && cfg.longopts.value[found.index].hasArg == 1 && IndexOf(text, '=') == |text| && following == []
  }

  predicate ShortLacks(cfg: Config, optstring: string, next: string, following: seq<string>)
    requires |next| > 0 && Decodable(cfg, optstring)
  {
    match KindOf(optstring, next[0])
    case Required => |next| == 1 && following == []
    case LongViaW =>
      if |next| > 1 then LongLacks(cfg, next[1..], true, following)
      else following == [] || LongLacks(cfg, following[0], true, following[1..])
    case _ => false
  }

  /** The option needs an argument, and the command line ends before it. */
  predicate Lacks(cfg: Config, optstring: string, element: string, next: string, following: seq<string>)
    requires |next| > 0 && Decodable(cfg, optstring)
  {
    if LongForm(cfg, optstring, element) then
      var found := Lookup(cfg.longopts.value, NameOf(next), cfg.longOnly);
      LongLacks(cfg, next, cfg.longOnly, following)
      || (found == NotFound && cfg.longOnly && At(element, 1) != '-' && IndexOf(optstring, next[0]) != |optstring|
          && ShortLacks(cfg, optstring, next, following))
    else ShortLacks(cfg, optstring, next, following)
  }

  /** f and g agree on what a call that advances by advance has used. */
  predicate Agree(f: seq<string>, g: seq<string>, advance: nat) {
    advance <= |f| + 1 && (advance > 0 ==> advance <= |g| + 1 && f[..advance - 1] == g[..advance - 1])
  }

  lemma FoundLocal(optstring: string, p: LongOption, i: nat, text: string, f: seq<string>, g: seq<string>, used: nat,
                   kept: Option<string>, report: bool)
    requires !(p.hasArg == 1 && IndexOf(text, '=') == |text| && f == [])
    requires var o := DecodeFound(optstring, p, i, text, f, used, kept, report);
             o.advance > used ==> f != [] && g != [] && f[0] == g[0]
    ensures DecodeFound(optstring, p, i, text, f, used, kept, report)
              == DecodeFound(optstring, p, i, text, g, used, kept, report)
    ensures DecodeFound(optstring, p, i, text, f, used, kept, report).advance <= used + 1
  {
  }

  lemma WLocal(cfg: Config, optstring: string, text: string, f: seq<string>, g: seq<string>, used: nat)
    requires cfg.longopts.Some? && !LongLacks(cfg, text, true, f)
    requires var o := DecodeW(cfg, optstring, text, f, used);
             o.advance > used ==> f != [] && g != [] && f[0] == g[0]
    ensures DecodeW(cfg, optstring, text, f, used) == DecodeW(cfg, optstring, text, g, used)
  {
    hide DecodeFound;
    var found := Lookup(cfg.longopts.value, NameOf(text), true);
    if found.FoundAt? {
      FoundLocal(optstring, cfg.longopts.value[found.index], found.index, text, f, g, used, Some(text), false);
    }
  }

  lemma ShortLocal(cfg: Config, optstring: string, next: string, f: seq<string>, g: seq<string>)
    requires |next| > 0 && Decodable(cfg, optstring) && !ShortLacks(cfg, optstring, next, f)
    requires Agree(f, g, DecodeShort(cfg, optstring, next, f).advance)
    ensures DecodeShort(cfg, optstring, next, f) == DecodeShort(cfg, optstring, next, g)
  {
    var o := DecodeShort(cfg, optstring, next, f);
    match KindOf(optstring, next[0])
    case Unknown =>
    case Flag =>
    case OptionalArg =>
    case Required =>
      assert |next| == 1 ==> f[0] == f[..1][0] && g[0] == g[..1][0];
    case LongViaW =>
      WAdvances(cfg, optstring, next, f);
      hide DecodeW, LongLacks;
      if |next| > 1 {
        if o.advance > 1 {
          assert f[0] == f[..o.advance - 1][0] && g[0] == g[..o.advance - 1][0];
        }
        WLocal(cfg, optstring, next[1..], f, g, 1);
      } else {
        assert f[0] == f[..o.advance - 1][0] && g[0] == g[..o.advance - 1][0];
        if o.advance > 2 {
          assert f[1..][0] == f[..o.advance - 1][1] && g[1..][0] == g[..o.advance - 1][1];
        }
        WLocal(cfg, optstring, f[0], f[1..], g[1..], 2);
      }
  }

  lemma WAdvances(cfg: Config, optstring: string, next: string, f: seq<string>)
    requires |next| > 0 && Decodable(cfg, optstring) && KindOf(optstring, next[0]) == LongViaW
    ensures |next| == 1 && f != [] ==> 2 <= DecodeShort(cfg, optstring, next, f).advance <= 3
    ensures |next| > 1 ==> 1 <= DecodeShort(cfg, optstring, next, f).advance <= 2
  {
  }

  /** Decoding looks at no more of what follows than it uses, unless it looks for an argument that is not there. */
  lemma DecodeLocal(cfg: Config, optstring: string, element: string, next: string, f: seq<string>, g: seq<string>)
    requires |next| > 0 && Decodable(cfg, optstring) && !Lacks(cfg, optstring, element, next, f)
    requires Agree(f, g, Decode(cfg, optstring, element, next, f).advance)
    ensures Decode(cfg, optstring, element, next, f) == Decode(cfg, optstring, element, next, g)
  {
    hide DecodeFound, DecodeShort;
    if LongForm(cfg, optstring, element) {
      var found := Lookup(cfg.longopts.value, NameOf(next), cfg.longOnly);
      match found
      case Ambiguous =>
      case FoundAt(i) =>
        var o := Decode(cfg, optstring, element, next, f);
        if o.advance > 1 {
          assert f[0] == f[..o.advance - 1][0] && g[0] == g[..o.advance - 1][0];
        }
        FoundLocal(optstring, cfg.longopts.value[i], i, next, f, g, 1, None, true);
      case NotFound =>
        if cfg.longOnly && At(element, 1) != '-' && IndexOf(optstring, next[0]) != |optstring| {
          ShortLocal(cfg, optstring, next, f, g);
        }
    } else {
      ShortLocal(cfg, optstring, next, f, g);
    }
  }

  /** An option that lacks its argument ends the command line, and takes one more element if there is any. */
  lemma LackingTakesMore(cfg: Config, optstring: string, element: string, next: string, f: seq<string>, g: seq<string>)
    requires |next| > 0 && Decodable(cfg, optstring) && Lacks(cfg, optstring, element, next, f) && g != []
    ensures Decode(cfg, optstring, element, next, f).advance == |f| + 1
    ensures Decode(cfg, optstring, element, next, f + g).advance > |f| + 1
  {
  }

  // ---- Whole command lines ------------------------------------------------------------------

  /** No option of the command line lacks its argument. */
  predicate Complete(cfg: Config, optstring: string, next: string, rest: seq<string>)
    requires Decodable(cfg, optstring) && Decodable(cfg, cfg.optstring) && (next != "" ==> rest != [])
    decreases |rest|, if next != "" then |next| else if rest != [] then |rest[0]| + 1 else 0
  {
    if next != "" then
      var o := Decode(cfg, optstring, rest[0], next, rest[1..]);
      DecodeProgress(cfg, optstring, rest[0], next, rest[1..]);
      !Lacks(cfg, optstring, rest[0], next, rest[1..])
      && (o.advance <= |rest| ==> Complete(cfg, cfg.optstring, o.next, rest[o.advance..]))
    else if rest == [] || rest[0] == "--" then true
    else if !NonOption(rest[0]) then Complete(cfg, optstring, OptionText(cfg, rest[0]), rest)
    else Complete(cfg, optstring, "", rest[1..])
  }

  // One step of the reading at a time.

  lemma ScanDecodes(cfg: Config, optstring: string, next: string, rest: seq<string>)
    requires Decodable(cfg, optstring) && Decodable(cfg, cfg.optstring) && next != "" && rest != []
    ensures var o := Decode(cfg, optstring, rest[0], next, rest[1..]);
            && (if o.advance == 0 then 0 < |o.next| < |next| else o.next == "")
            && Scan(cfg, optstring, next, rest)
               == if o.advance > |rest| then Parse([o.event], rest, [], true)
                  else Before([o.event], rest[..o.advance], [], Scan(cfg, cfg.optstring, o.next, rest[o.advance..]))
  {
    DecodeProgress(cfg, optstring, rest[0], next, rest[1..]);
    hide Decode;
  }

  lemma ScanBegins(cfg: Config, optstring: string, rest: seq<string>)
    requires Decodable(cfg, optstring) && Decodable(cfg, cfg.optstring)
    requires rest != [] && rest[0] != "--" && !NonOption(rest[0])
    ensures Scan(cfg, optstring, "", rest) == Scan(cfg, optstring, OptionText(cfg, rest[0]), rest)
  {
    hide Decode;
  }

  lemma ScanDashes(cfg: Config, optstring: string, rest: seq<string>)
    requires Decodable(cfg, optstring) && Decodable(cfg, cfg.optstring) && rest != [] && rest[0] == "--"
    ensures Scan(cfg, optstring, "", rest) == Parse([], ["--"], rest[1..], false)
  {
  }

  predicate AllNonOptions(extra: seq<string>) {
    forall i | 0 <= i < |extra| :: NonOption(extra[i])
  }

  lemma {:induction false} ScanNonOptions(cfg: Config, optstring: string, extra: seq<string>)
    requires Decodable(cfg, optstring) && Decodable(cfg, cfg.optstring) && cfg.Ordering() == PERMUTE
    requires AllNonOptions(extra)
    ensures Scan(cfg, optstring, "", extra) == Parse([], [], extra, false)
  {
    if extra != [] {
      ScanSkipsOne(cfg, optstring, extra);
      ScanNonOptions(cfg, optstring, extra[1..]);
      assert extra[..1] + extra[1..] == extra;
    }
  }

  /** An option that is being read is the first of the elements that belong to options. */
  lemma {:induction false} OptsBegin(cfg: Config, optstring: string, next: string, rest: seq<string>)
    requires Decodable(cfg, optstring) && Decodable(cfg, cfg.optstring) && next != "" && rest != []
    requires !Scan(cfg, optstring, next, rest).overrun
    ensures var p := Scan(cfg, optstring, next, rest); p.opts != [] && p.opts[0] == rest[0]
    decreases |next|
  {
    hide Scan, Decode;
    ScanDecodes(cfg, optstring, next, rest);
    var o := Decode(cfg, optstring, rest[0], next, rest[1..]);
    if o.advance == 0 {
      assert rest[0..] == rest;
      OptsBegin(cfg, cfg.optstring, o.next, rest);
    }
  }

  /** The command line after the run, if the elements of extra had been skipped before rest. */
  function Permuted(cfg: Config, optstring: string, next: string, rest: seq<string>, extra: seq<string>): seq<string>
    requires Decodable(cfg, optstring) && Decodable(cfg, cfg.optstring) && (next != "" ==> rest != [])
  {
    var p := Scan(cfg, optstring, next, rest);
    p.opts + (extra + p.nonopts)
  }

  /** Reading it again gives the same. */
  ghost predicate Stable(cfg: Config, optstring: string, next: string, rest: seq<string>, extra: seq<string>)
    requires Decodable(cfg, optstring) && Decodable(cfg, cfg.optstring) && (next != "" ==> rest != [])
  {
    var args := Permuted(cfg, optstring, next, rest, extra);
    (next != "" ==> args != [])
    && Scan(cfg, optstring, next, args) == Before([], [], extra, Scan(cfg, optstring, next, rest))
  }

  /** Where an option has been decoded and no argument is missing, reading it again makes no difference. */
  lemma StableDecode(cfg: Config, optstring: string, next: string, rest: seq<string>, extra: seq<string>)
    requires Decodable(cfg, optstring) && Decodable(cfg, cfg.optstring) && next != "" && rest != []
    requires !Scan(cfg, optstring, next, rest).overrun && !Lacks(cfg, optstring, rest[0], next, rest[1..])
    ensures var o := Decode(cfg, optstring, rest[0], next, rest[1..]);
            o.advance <= |rest| && (o.next != "" ==> o.advance == 0)
            && (Stable(cfg, optstring, next, rest, extra)
                <==> Stable(cfg, cfg.optstring, o.next, rest[o.advance..], extra))
  {
    hide Scan, Decode, Lacks;
    ScanDecodes(cfg, optstring, next, rest);
    OptsBegin(cfg, optstring, next, rest);
    var o := Decode(cfg, optstring, rest[0], next, rest[1..]);
    var q := Scan(cfg, cfg.optstring, o.next, rest[o.advance..]);
    var p := Scan(cfg, optstring, next, rest);
    var args, after := p.opts + (extra + p.nonopts), q.opts + (extra + q.nonopts);
    assert [] + q.nonopts == q.nonopts;
    assert args == rest[..o.advance] + after;
    if o.advance == 0 {
      assert rest[0..] == rest && args[0..] == args && args == after;
    }
    assert args[0] == rest[0] && args[o.advance..] == after;
    if o.advance > 0 {
      assert args[1..][..o.advance - 1] == rest[1..][..o.advance - 1];
    }
    DecodeLocal(cfg, optstring, rest[0], next, rest[1..], args[1..]);
    ScanDecodes(cfg, optstring, next, args);
    SameTail([o.event], rest[..o.advance], extra, Scan(cfg, cfg.optstring, o.next, after), q);
  }

  lemma SameTail(events: seq<Event>, opts: seq<string>, extra: seq<string>, a: Parse, b: Parse)
    ensures Before(events, opts, [], a) == Before([], [], extra, Before(events, opts, [], b))
            <==> a == Before([], [], extra, b)
  {
    var x, y := Before(events, opts, [], a), Before([], [], extra, Before(events, opts, [], b));
    assert x.events[|events|..] == a.events && x.opts[|opts|..] == a.opts && x.nonopts == a.nonopts;
    assert y.events[|events|..] == b.events && y.opts[|opts|..] == b.opts && y.nonopts == extra + b.nonopts;
    assert [] + b.events == b.events && [] + b.opts == b.opts;
  }

  lemma LackingScan(cfg: Config, optstring: string, next: string, rest: seq<string>)
    requires Decodable(cfg, optstring) && Decodable(cfg, cfg.optstring) && next != "" && rest != []
    requires Lacks(cfg, optstring, rest[0], next, rest[1..])
    ensures Scan(cfg, optstring, next, rest)
         == Parse([Decode(cfg, optstring, rest[0], next, rest[1..]).event], rest, [], false)
  {
    ScanEmpty(cfg);
    hide Scan, Decode, Lacks;
    ScanDecodes(cfg, optstring, next, rest);
    LackingTakesMore(cfg, optstring, rest[0], next, rest[1..], ["x"]);
    assert rest[|rest|..] == [] && rest[..|rest|] + [] == rest;
  }

  /** An option that lacks its argument takes the first element that has been moved behind it. */
  lemma UnstableDecode(cfg: Config, optstring: string, next: string, rest: seq<string>, extra: seq<string>)
    requires Decodable(cfg, optstring) && Decodable(cfg, cfg.optstring) && next != "" && rest != []
    requires Lacks(cfg, optstring, rest[0], next, rest[1..])
    ensures Scan(cfg, optstring, next, rest).nonopts == []
    ensures Stable(cfg, optstring, next, rest, extra) <==> extra == []
  {
    hide Scan, Decode, Lacks;
    LackingScan(cfg, optstring, next, rest);
    var p, args := Scan(cfg, optstring, next, rest), rest + extra;
    assert p.opts + (extra + p.nonopts) == args;
    assert Before([], [], extra, p).opts == rest;
    if extra == [] {
      assert args == rest;
      UnchangedBefore(p);
    } else {
      assert args[1..] == rest[1..] + extra;
      LackingTakesMore(cfg, optstring, rest[0], next, rest[1..], extra);
      ScanDecodes(cfg, optstring, next, args);
    }
  }

  lemma ScanEmpty(cfg: Config)
    requires Decodable(cfg, cfg.optstring)
    ensures Scan(cfg, cfg.optstring, "", []) == Parse([], [], [], false)
  {
  }

  lemma StableEnd(cfg: Config, optstring: string, rest: seq<string>, extra: seq<string>)
    requires Decodable(cfg, optstring) && Decodable(cfg, cfg.optstring) && cfg.Ordering() == PERMUTE
    requires AllNonOptions(extra) && (rest == [] || rest[0] == "--")
    ensures Stable(cfg, optstring, "", rest, extra)
  {
    if rest == [] {
      ScanNonOptions(cfg, optstring, []);
      hide Scan;
      assert [] + (extra + []) == extra;
      ScanNonOptions(cfg, optstring, extra);
    } else {
      hide Scan;
      ScanDashes(cfg, optstring, rest);
      var args := ["--"] + (extra + rest[1..]);
      ScanDashes(cfg, optstring, args);
      assert args[1..] == extra + rest[1..] && [] + ["--"] == ["--"];
    }
  }

  lemma StableBegin(cfg: Config, optstring: string, rest: seq<string>, extra: seq<string>)
    requires Decodable(cfg, optstring) && Decodable(cfg, cfg.optstring)
    requires rest != [] && rest[0] != "--" && !NonOption(rest[0]) && !Scan(cfg, optstring, "", rest).overrun
    ensures Stable(cfg, optstring, "", rest, extra) <==> Stable(cfg, optstring, OptionText(cfg, rest[0]), rest, extra)
  {
    hide Scan, NonOption;
    ScanBegins(cfg, optstring, rest);
    OptsBegin(cfg, optstring, OptionText(cfg, rest[0]), rest);
    ScanBegins(cfg, optstring, Permuted(cfg, optstring, "", rest, extra));
  }

  lemma StableSkip(cfg: Config, optstring: string, rest: seq<string>, extra: seq<string>)
    requires Decodable(cfg, optstring) && Decodable(cfg, cfg.optstring) && cfg.Ordering() == PERMUTE
    requires rest != [] && NonOption(rest[0])
    ensures Stable(cfg, optstring, "", rest, extra) <==> Stable(cfg, optstring, "", rest[1..], extra + rest[..1])
  {
    hide Scan;
    ScanSkipsOne(cfg, optstring, rest);
    var q := Scan(cfg, optstring, "", rest[1..]);
    assert [] + q.opts == q.opts && [] + ([] + q.events) == [] + q.events && [] + ([] + q.opts) == [] + q.opts;
    assert extra + (rest[..1] + q.nonopts) == (extra + rest[..1]) + q.nonopts;
  }

  /** Reading the permuted command line again gives the same, exactly if no option lacks its argument or nothing has
      been moved behind it. */
  lemma {:induction false} StableExactly(cfg: Config, optstring: string, next: string, rest: seq<string>,
                                         extra: seq<string>)
    requires Decodable(cfg, optstring) && Decodable(cfg, cfg.optstring) && cfg.Ordering() == PERMUTE
    requires (next != "" ==> rest != []) && AllNonOptions(extra) && !Scan(cfg, optstring, next, rest).overrun
    ensures Stable(cfg, optstring, next, rest, extra) <==>
              Complete(cfg, optstring, next, rest) || extra + Scan(cfg, optstring, next, rest).nonopts == []
    decreases |rest|, if next != "" then |next| else if rest != [] then |rest[0]| + 1 else 0
  {
    hide Scan, Stable, Decode, Lacks, NonOption;
    if next != "" {
      if Lacks(cfg, optstring, rest[0], next, rest[1..]) {
        UnstableDecode(cfg, optstring, next, rest, extra);
      } else {
        StableDecode(cfg, optstring, next, rest, extra);
        ScanDecodes(cfg, optstring, next, rest);
        var o := Decode(cfg, optstring, rest[0], next, rest[1..]);
        StableExactly(cfg, cfg.optstring, o.next, rest[o.advance..], extra);
        assert [] + Scan(cfg, cfg.optstring, o.next, rest[o.advance..]).nonopts
            == Scan(cfg, cfg.optstring, o.next, rest[o.advance..]).nonopts;
      }
    } else if rest == [] || rest[0] == "--" {
      StableEnd(cfg, optstring, rest, extra);
    } else if !NonOption(rest[0]) {
      ScanBegins(cfg, optstring, rest);
      StableBegin(cfg, optstring, rest, extra);
      StableExactly(cfg, optstring, OptionText(cfg, rest[0]), rest, extra);
    } else {
      ScanSkipsOne(cfg, optstring, rest);
      StableSkip(cfg, optstring, rest, extra);
      StableExactly(cfg, optstring, "", rest[1..], extra + rest[..1]);
    }
  }

  /** Permuting does not change the meaning of a command line: a second run over the argv that the first has left
      reports the same and leaves it as it is, exactly if no option lacks its argument or there is nothing
      but options. */
  lemma PermutingKeepsMeaning(cfg: Config, args: seq<string>)
    requires Decodable(cfg, cfg.FirstOptstring()) && Decodable(cfg, cfg.optstring) && cfg.Ordering() == PERMUTE
    requires !Reading(cfg, args).overrun
    ensures var p := Reading(cfg, args);
            Reading(cfg, p.opts + p.nonopts) == p <==> Complete(cfg, cfg.FirstOptstring(), "", args) || p.nonopts == []
  {
    StableExactly(cfg, cfg.FirstOptstring(), "", args, []);
    hide Scan, Complete;
    var p := Reading(cfg, args);
    assert [] + p.nonopts == p.nonopts;
    UnchangedBefore(p);
  }

  /** It does change if an option lacks its argument: after "x" and "-a", "-a" takes "x". */
  lemma PermutingMayChangeMeaning()
    ensures var cfg := Config("a:", None, false, false); var p := Reading(cfg, ["x", "-a"]);
            p.opts == ["-a"] && p.nonopts == ["x"] && Reading(cfg, p.opts + p.nonopts) != p
  {
    var cfg := Config("a:", None, false, false);
    var args := ["x", "-a"];
    ScanSkipsOne(cfg, "a:", args);
    assert args[..1] == ["x"] && args[1..] == ["-a"];
    ScanBegins(cfg, "a:", ["-a"]);
    assert OptionText(cfg, "-a") == "a";
    assert KindOf("a:", 'a') == Required;
    assert Lacks(cfg, "a:", "-a", "a", []);
    LackingScan(cfg, "a:", "a", ["-a"]);
    assert !Complete(cfg, "a:", "a", ["-a"]);
    assert !Complete(cfg, "a:", "", ["-a"]);
    assert !Complete(cfg, "a:", "", args);
    PermutingKeepsMeaning(cfg, args);
  }
}
