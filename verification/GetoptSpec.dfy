/** What lib/getopt.c promises about a whole run: the options of an argument vector read from left to right
    without moving anything (Scan), and the decoding of one option (Decode). Strings are C strings
    without their terminator. */
module GetoptSpec {

  datatype Option<T> = None | Some(value: T)

  datatype Ordering = REQUIRE_ORDER | PERMUTE | RETURN_IN_ORDER

  /** struct option. hasArg is 0 for no argument, 1 for a required and 2 for an optional one; flag names
      the variable that a non-NULL flag points to. */
  datatype LongOption = LongOption(name: string, hasArg: nat, flag: Option<nat>, val: int)

  /** The arguments that stay the same from call to call, and the environment. */
  datatype Config = Config(optstring: string, longopts: Option<seq<LongOption>>, longOnly: bool, posixlyCorrect: bool)
  {
    function Ordering(): Ordering {
      if At(optstring, 0) == '-' then RETURN_IN_ORDER
      else if At(optstring, 0) == '+' then REQUIRE_ORDER
      else if posixlyCorrect then REQUIRE_ORDER
      else PERMUTE
    }

    /** optstring as the first call reads it: without the character that selects the ordering. Later
        calls read all of optstring. */
    function FirstOptstring(): string {
      if At(optstring, 0) == '-' || At(optstring, 0) == '+' then optstring[1..] else optstring
    }
  }

  /** s[i] in C: the terminator after the last character. */
  function At(s: string, i: nat): char {
    if i < |s| then s[i] else '\0'
  }

  /** What one call of getopt reports: the return value, optarg, and what it stores in optopt, *longind
      and *flag if it stores anything there. */
  datatype Event = Event(ret: int, optarg: Option<string>, optopt: Option<int>, longind: Option<nat>,
                         flag: Option<(nat, int)>)

  /** The effect of decoding one option: the event, the unread rest of the element and by how much
      optind grows. */
  datatype Outcome = Outcome(event: Event, next: string, advance: nat)

  // ---- Short options ------------------------------------------------------------------------

  datatype Kind = Unknown | Flag | Required | OptionalArg | LongViaW

  /** The least index of c in s, or |s|. */
  function IndexOf(s: string, c: char): (i: nat)
    ensures i <= |s|
  {
    if |s| == 0 || s[0] == c then 0 else 1 + IndexOf(s[1..], c)
  }

  function KindOf(optstring: string, c: char): Kind {
    var i := IndexOf(optstring, c);
    if i == |optstring| || c == ':' then Unknown
    else if c == 'W' && At(optstring, i + 1) == ';' then LongViaW
    else if At(optstring, i + 1) != ':' then Flag
    else if At(optstring, i + 2) == ':' then OptionalArg
    else Required
  }

  // ---- Long options -------------------------------------------------------------------------

  datatype Found = NotFound | Ambiguous | FoundAt(index: nat)

  /** The least index from i on whose name is name, or the number of options. */
  function FirstExact(longopts: seq<LongOption>, name: string, i: nat): (k: nat)
    requires i <= |longopts|
    ensures i <= k <= |longopts|
    decreases |longopts| - i
  {
    if i == |longopts| || longopts[i].name == name then i else FirstExact(longopts, name, i + 1)
  }

  /** The least index from i on whose name starts with name, or the number of options. */
  function FirstPrefixed(longopts: seq<LongOption>, name: string, i: nat): (k: nat)
    requires i <= |longopts|
    ensures i <= k <= |longopts|
    decreases |longopts| - i
  {
    if i == |longopts| || name <= longopts[i].name then i else FirstPrefixed(longopts, name, i + 1)
  }

  predicate Differs(p: LongOption, q: LongOption) {
    p.hasArg != q.hasArg || p.flag != q.flag || p.val != q.val
  }

  /** No exact match: the first option that name abbreviates is meant, unless a later one that name also
      abbreviates does something else (strict: unless there is a later one at all). */
  function Abbreviated(longopts: seq<LongOption>, name: string, strict: bool): (found: Found)
    ensures found.FoundAt? ==> found.index < |longopts|
  {
    var first := FirstPrefixed(longopts, name, 0);
    if first == |longopts| then NotFound
    else if exists j | first < j < |longopts| ::
              name <= longopts[j].name && (strict || Differs(longopts[first], longopts[j])) then Ambiguous
    else FoundAt(first)
  }

  /** The long option that name means: an exact match wins over abbreviations. */
  function Lookup(longopts: seq<LongOption>, name: string, strict: bool): (found: Found)
    ensures found.FoundAt? ==> found.index < |longopts|
  {
    var exact := FirstExact(longopts, name, 0);
    if exact < |longopts| then FoundAt(exact) else Abbreviated(longopts, name, strict)
  }

  lemma {:induction false} FirstExactIsLeast(longopts: seq<LongOption>, name: string, i: nat)
    requires i <= |longopts|
    ensures var k := FirstExact(longopts, name, i);
            && (k < |longopts| ==> longopts[k].name == name)
            && forall j | i <= j < k :: longopts[j].name != name
    decreases |longopts| - i
  {
    if i < |longopts| && longopts[i].name != name {
      FirstExactIsLeast(longopts, name, i + 1);
    }
  }

  lemma {:induction false} FirstPrefixedIsLeast(longopts: seq<LongOption>, name: string, i: nat)
    requires i <= |longopts|
    ensures var k := FirstPrefixed(longopts, name, i);
            && (k < |longopts| ==> name <= longopts[k].name)
            && forall j | i <= j < k :: !(name <= longopts[j].name)
    decreases |longopts| - i
  {
    if i < |longopts| && !(name <= longopts[i].name) {
      FirstPrefixedIsLeast(longopts, name, i + 1);
    }
  }

  /** name is the name of an option. */
  predicate IsName(longopts: seq<LongOption>, name: string) {
    exists i | 0 <= i < |longopts| :: longopts[i].name == name
  }

  /** name abbreviates option i, and every other option that it abbreviates does the same. */
  predicate Agreed(longopts: seq<LongOption>, name: string, i: nat) {
    && i < |longopts| && name <= longopts[i].name
    && forall j | 0 <= j < |longopts| && name <= longopts[j].name :: !Differs(longopts[i], longopts[j])
  }

  /** "Their names may be abbreviated as long as the abbreviation is unique or is an exact match for some
      defined option": a name is found exactly when it is the name of an option or all the options that it
      abbreviates do the same. */
  lemma LookupFinds(longopts: seq<LongOption>, name: string)
    ensures Lookup(longopts, name, false).FoundAt? <==>
            IsName(longopts, name) || exists i :: Agreed(longopts, name, i)
    ensures Lookup(longopts, name, false) == NotFound ==> forall i | 0 <= i < |longopts| :: !(name <= longopts[i].name)
  {
    FirstExactIsLeast(longopts, name, 0);
    FirstPrefixedIsLeast(longopts, name, 0);
    var exact, first := FirstExact(longopts, name, 0), FirstPrefixed(longopts, name, 0);
    if exact < |longopts| {
      assert longopts[exact].name == name;
    } else if Lookup(longopts, name, false).FoundAt? {
      assert Agreed(longopts, name, first);
    }
  }

  /** The part of a long option before '='. */
  function NameOf(text: string): string {
    text[..IndexOf(text, '=')]
  }

  const ERROR := '?' as int

  /** The value that reports a missing argument. */
  function Missing(optstring: string): int {
    if At(optstring, 0) == ':' then ':' as int else ERROR
  }

  /** The long option p, number i, given by text. following are the elements after those already used,
      used is their number, and kept is optarg if p takes no argument. Only the "--" form (report)
      stores something in optopt when there is an error. */
  function DecodeFound(optstring: string, p: LongOption, i: nat, text: string, following: seq<string>,
                       used: nat, kept: Option<string>, report: bool): Outcome {
    var optopt := if report then Some(p.val) else None;
    var end := IndexOf(text, '=');
    if end < |text| && p.hasArg == 0 then Outcome(Event(ERROR, kept, optopt, None, None), "", used)
    else if end == |text| && p.hasArg == 1 && following == [] then
      Outcome(Event(Missing(optstring), kept, optopt, None, None), "", used)
    else
      var optarg := if end < |text| then Some(text[end + 1..])
                    else if p.hasArg == 1 then Some(following[0]) else kept;
      var advance := if end == |text| && p.hasArg == 1 then used + 1 else used;
      match p.flag
      case Some(f) => Outcome(Event(0, optarg, None, Some(i), Some((f, p.val))), "", advance)
      case None => Outcome(Event(p.val, optarg, None, Some(i), None), "", advance)
  }

  /** Only the first call skips the sign that selects the ordering. Later ones take it for an option, and no longer
      see the colon behind it that asks for ':' when an argument is missing. */
  lemma SignIsReadLater(cfg: Config)
    requires At(cfg.optstring, 0) == '+' || At(cfg.optstring, 0) == '-'
    ensures Missing(cfg.FirstOptstring()) == ':' as int <==> At(cfg.optstring, 1) == ':'
    ensures Missing(cfg.optstring) == ERROR && KindOf(cfg.optstring, cfg.optstring[0]) != Unknown
  {
  }

  // ---- Decoding -----------------------------------------------------------------------------

  /** Whether the element may be a long option. */
  predicate LongForm(cfg: Config, optstring: string, element: string) {
    && cfg.longopts.Some?
    && (At(element, 1) == '-'
        || (cfg.longOnly && (|element| > 2 || IndexOf(optstring, At(element, 1)) == |optstring|)))
  }

  /** -W text: text is read like a long option. An ambiguous name advances optind once more than it should. */
  function DecodeW(cfg: Config, optstring: string, text: string, following: seq<string>, used: nat): Outcome
    requires cfg.longopts.Some?
  {
    match Lookup(cfg.longopts.value, NameOf(text), true)
    case Ambiguous => Outcome(Event(ERROR, Some(text), None, None, None), "", used + 1)
    case NotFound => Outcome(Event('W' as int, Some(text), None, None, None), "", used)
    case FoundAt(i) =>
      DecodeFound(optstring, cfg.longopts.value[i], i, text, following, used, Some(text), false)
  }

  predicate Decodable(cfg: Config, optstring: string) {
    KindOf(optstring, 'W') == LongViaW ==> cfg.longopts.Some?
  }

  /** The next short option; next is the unread part of the element. */
  function DecodeShort(cfg: Config, optstring: string, next: string, following: seq<string>): Outcome
    requires |next| > 0 && Decodable(cfg, optstring)
  {
    var c, text := next[0], next[1..];
    var used := if text == "" then 1 else 0;
    match KindOf(optstring, c)
    case Unknown => Outcome(Event(ERROR, None, Some(c as int), None, None), text, used)
    case Flag => Outcome(Event(c as int, None, None, None, None), text, used)
    case OptionalArg => Outcome(Event(c as int, if text == "" then None else Some(text), None, None, None), "", 1)
    case Required =>
      if text != "" then Outcome(Event(c as int, Some(text), None, None, None), "", 1)
      else if following == [] then Outcome(Event(Missing(optstring), None, Some(c as int), None, None), "", 1)
      else Outcome(Event(c as int, Some(following[0]), None, None, None), "", 2)
    case LongViaW =>
      if text != "" then DecodeW(cfg, optstring, text, following, 1)
      else if following == [] then Outcome(Event(Missing(optstring), None, Some(c as int), None, None), "", 1)
      else DecodeW(cfg, optstring, following[0], following[1..], 2)
  }

  /** An element that may be a long option; if it is none, it may still be read as short ones. */
  function DecodeLong(cfg: Config, optstring: string, element: string, next: string, following: seq<string>): Outcome
    requires |next| > 0 && Decodable(cfg, optstring) && cfg.longopts.Some?
  {
    match Lookup(cfg.longopts.value, NameOf(next), cfg.longOnly)
    case Ambiguous => Outcome(Event(ERROR, None, Some(0), None, None), "", 1)
    case FoundAt(i) => DecodeFound(optstring, cfg.longopts.value[i], i, next, following, 1, None, true)
    case NotFound =>
      if !cfg.longOnly || At(element, 1) == '-' || IndexOf(optstring, next[0]) == |optstring|
      then Outcome(Event(ERROR, None, Some(0), None, None), "", 1)
      else DecodeShort(cfg, optstring, next, following)
  }

  /** The option that a call decodes when element is the current element, next its unread part and
      following the elements after it. */
  function Decode(cfg: Config, optstring: string, element: string, next: string, following: seq<string>): Outcome
    requires |next| > 0 && Decodable(cfg, optstring)
  {
    if LongForm(cfg, optstring, element) then DecodeLong(cfg, optstring, element, next, following)
    else DecodeShort(cfg, optstring, next, following)
  }

  /** A call that stays inside the element shortens its unread part; one that leaves it leaves nothing. */
  lemma DecodeProgress(cfg: Config, optstring: string, element: string, next: string, following: seq<string>)
    requires |next| > 0 && Decodable(cfg, optstring)
    ensures var o := Decode(cfg, optstring, element, next, following);
            if o.advance == 0 then 0 < |o.next| < |next| else o.next == ""
  {
    ShortProgress(cfg, optstring, next, following);
  }

  lemma ShortProgress(cfg: Config, optstring: string, next: string, following: seq<string>)
    requires |next| > 0 && Decodable(cfg, optstring)
    ensures var o := DecodeShort(cfg, optstring, next, following);
            if o.advance == 0 then 0 < |o.next| < |next| else o.next == ""
  {
  }

  /** optind stays within argv, but for an ambiguous name after -W whose text is the last thing on the
      command line: then it passes the end by one. */
  lemma DecodeStaysInside(cfg: Config, optstring: string, element: string, next: string, following: seq<string>)
    requires |next| > 0 && Decodable(cfg, optstring)
    ensures Decode(cfg, optstring, element, next, following).advance <= |following| + 2
    ensures KindOf(optstring, 'W') != LongViaW ==>
              Decode(cfg, optstring, element, next, following).advance <= |following| + 1
  {
    ShortStaysInside(cfg, optstring, next, following);
  }

  lemma ShortStaysInside(cfg: Config, optstring: string, next: string, following: seq<string>)
    requires |next| > 0 && Decodable(cfg, optstring)
    ensures DecodeShort(cfg, optstring, next, following).advance <= |following| + 2
    ensures KindOf(optstring, 'W') != LongViaW ==>
              DecodeShort(cfg, optstring, next, following).advance <= |following| + 1
  {
  }

  lemma DecodeFits(cfg: Config, optstring: string, element: string, next: string, following: seq<string>)
    requires |next| > 0 && Decodable(cfg, optstring)
    ensures var o := Decode(cfg, optstring, element, next, following);
            (o.advance != 0 ==> o.next == "") && o.advance <= |following| + 2
  {
    DecodeProgress(cfg, optstring, element, next, following);
    DecodeStaysInside(cfg, optstring, element, next, following);
  }

  // ---- One call -----------------------------------------------------------------------------

  /** An element that is not an option: NONOPTION_P. */
  predicate NonOption(element: string) {
    At(element, 0) != '-' || |element| == 1
  }

  /** The unread part of an option element when it is reached. */
  function OptionText(cfg: Config, element: string): (text: string)
    requires !NonOption(element) && element != "--"
    ensures 0 < |text| < |element|
  {
    if cfg.longopts.Some? && element[1] == '-' then element[2..] else element[1..]
  }

  /** The number of elements before the first option. */
  function Leading(rest: seq<string>): (k: nat)
    ensures k <= |rest| && (k < |rest| ==> !NonOption(rest[k]))
  {
    if rest == [] || !NonOption(rest[0]) then 0 else 1 + Leading(rest[1..])
  }

  /** What one call does to the elements it has not passed yet: it ends the run, assigning all of them to
      the options and to the others; or it reports an event, passes some elements as options, skips
      some, and leaves rest with next as the unread part of its first element; or it moves optind past
      the end. */
  datatype Call =
    | Finish(opts: seq<string>, nonopts: seq<string>)
    | Report(event: Event, opts: seq<string>, nonopts: seq<string>, next: string, rest: seq<string>)
    | Overrun(event: Event)

  function OptionCall(cfg: Config, optstring: string, next: string, skipped: seq<string>, rest: seq<string>): Call
    requires |next| > 0 && rest != [] && Decodable(cfg, optstring)
  {
    CallOf(Decode(cfg, optstring, rest[0], next, rest[1..]), skipped, rest)
  }

  /** The call that decodes o after skipping some elements. */
  function CallOf(o: Outcome, skipped: seq<string>, rest: seq<string>): Call {
    if o.advance > |rest| then Overrun(o.event)
    else Report(o.event, rest[..o.advance], skipped, o.next, rest[o.advance..])
  }

  function OneCall(cfg: Config, optstring: string, next: string, rest: seq<string>): Call
    requires Decodable(cfg, optstring) && (next != "" ==> rest != [])
  {
    if next != "" then OptionCall(cfg, optstring, next, [], rest)
    else
      var k := if cfg.Ordering() == PERMUTE then Leading(rest) else 0;
      if k == |rest| then Finish([], rest)
      else if rest[k] == "--" then Finish(["--"], rest[..k] + rest[k + 1..])
      else if !NonOption(rest[k]) then OptionCall(cfg, optstring, OptionText(cfg, rest[k]), rest[..k], rest[k..])
      else if cfg.Ordering() == REQUIRE_ORDER then Finish([], rest)
      else Report(NonOptionEvent(rest[0]), rest[..1], [], "", rest[1..])
  }

  function NonOptionEvent(element: string): Event {
    Event(1, Some(element), None, None, None)
  }

  // ---- A whole run --------------------------------------------------------------------------

  /** The result of a run: what the calls report, the elements that belong to options and the others, each
      in the order of the command line; overrun if a call moves optind past the end. */
  datatype Parse = Parse(events: seq<Event>, opts: seq<string>, nonopts: seq<string>, overrun: bool)

  /** p preceded by events, by elements that belong to options and by others. */
  function Before(events: seq<Event>, opts: seq<string>, nonopts: seq<string>, p: Parse): Parse {
    Parse(events + p.events, opts + p.opts, nonopts + p.nonopts, p.overrun)
  }

  /** Reads the elements of rest from left to right and moves nothing. next is the unread part of rest[0]
      if that is an option that is being read. */
  function Scan(cfg: Config, optstring: string, next: string, rest: seq<string>): Parse
    requires Decodable(cfg, optstring) && Decodable(cfg, cfg.optstring)
    requires next != "" ==> rest != []
    decreases |rest|, if next != "" then |next| else if rest != [] then |rest[0]| + 1 else 0
  {
    if next != "" then
      var o := Decode(cfg, optstring, rest[0], next, rest[1..]);
      DecodeProgress(cfg, optstring, rest[0], next, rest[1..]);
      if o.advance > |rest| then Parse([o.event], rest, [], true)
      else Before([o.event], rest[..o.advance], [], Scan(cfg, cfg.optstring, o.next, rest[o.advance..]))
    else if rest == [] then Parse([], [], [], false)
    else if rest[0] == "--" then Parse([], ["--"], rest[1..], false)
    else if !NonOption(rest[0]) then Scan(cfg, optstring, OptionText(cfg, rest[0]), rest)
    else match cfg.Ordering()
      case PERMUTE => Before([], [], rest[..1], Scan(cfg, optstring, "", rest[1..]))
      case REQUIRE_ORDER => Parse([], [], rest, false)
      case RETURN_IN_ORDER =>
        Before([NonOptionEvent(rest[0])], rest[..1], [], Scan(cfg, cfg.optstring, "", rest[1..]))
  }

  /** What the left-to-right reading makes of a command line. */
  function Reading(cfg: Config, args: seq<string>): Parse
    requires Decodable(cfg, cfg.optstring) && Decodable(cfg, cfg.FirstOptstring())
  {
    Scan(cfg, cfg.FirstOptstring(), "", args)
  }

  lemma ScanSkipsOne(cfg: Config, optstring: string, rest: seq<string>)
    requires Decodable(cfg, optstring) && Decodable(cfg, cfg.optstring) && cfg.Ordering() == PERMUTE
    requires rest != [] && NonOption(rest[0])
    ensures Scan(cfg, optstring, "", rest) == Before([], [], rest[..1], Scan(cfg, optstring, "", rest[1..]))
  {
  }

  /** In the ordering PERMUTE the elements that are no options are passed over. */
  lemma {:induction false} ScanSkipsLeading(cfg: Config, optstring: string, rest: seq<string>)
    requires Decodable(cfg, optstring) && Decodable(cfg, cfg.optstring) && cfg.Ordering() == PERMUTE
    ensures var k := Leading(rest);
            Scan(cfg, optstring, "", rest) == Before([], [], rest[..k], Scan(cfg, optstring, "", rest[k..]))
  {
    hide Scan;
    var k := Leading(rest);
    if k == 0 {
      assert rest[0..] == rest;
    } else {
      var tail := rest[1..];
      ScanSkipsOne(cfg, optstring, rest);
      ScanSkipsLeading(cfg, optstring, tail);
      assert tail[k - 1..] == rest[k..];
      var p := Scan(cfg, optstring, "", rest[k..]);
      assert rest[..1] + (tail[..k - 1] + p.nonopts) == rest[..k] + p.nonopts;
    }
  }

  /** One call does what the left-to-right reading does up to its next event. */
  lemma CallFollowsScan(cfg: Config, optstring: string, next: string, rest: seq<string>)
    requires Decodable(cfg, optstring) && Decodable(cfg, cfg.optstring) && (next != "" ==> rest != [])
    ensures var p := Scan(cfg, optstring, next, rest);
            match OneCall(cfg, optstring, next, rest)
            case Finish(o, n) => p == Parse([], o, n, false)
            case Overrun(e) => p.events == [e] && p.overrun
            case Report(e, o, n, next2, rest2) =>
              (next2 != "" ==> rest2 != []) && p == Before([e], o, n, Scan(cfg, cfg.optstring, next2, rest2))
  {
    hide Decode, OptionCall;
    if next != "" {
      OptionCallFollowsScan(cfg, optstring, next, [], rest);
    } else {
      var k := if cfg.Ordering() == PERMUTE then Leading(rest) else 0;
      assert Scan(cfg, optstring, "", rest) == Before([], [], rest[..k], Scan(cfg, optstring, "", rest[k..])) by {
        if cfg.Ordering() == PERMUTE {
          ScanSkipsLeading(cfg, optstring, rest);
        } else {
          assert rest[0..] == rest && rest[..0] == [];
          UnchangedBefore(Scan(cfg, optstring, "", rest));
        }
      }
      if k < |rest| && !NonOption(rest[k]) && rest[k] != "--" {
        OptionCallFollowsScan(cfg, optstring, OptionText(cfg, rest[k]), rest[..k], rest[k..]);
      } else {
        BoundaryCallFollowsScan(cfg, optstring, rest, k);
      }
    }
  }

  lemma BoundaryCallFollowsScan(cfg: Config, optstring: string, rest: seq<string>, k: nat)
    requires Decodable(cfg, optstring) && Decodable(cfg, cfg.optstring)
    requires k == if cfg.Ordering() == PERMUTE then Leading(rest) else 0
    requires k < |rest| ==> NonOption(rest[k]) || rest[k] == "--"
    ensures var p := Before([], [], rest[..k], Scan(cfg, optstring, "", rest[k..]));
            match OneCall(cfg, optstring, "", rest)
            case Finish(o, n) => p == Parse([], o, n, false)
            case Overrun(e) => false
            case Report(e, o, n, next2, rest2) =>
              next2 == "" && p == Before([e], o, n, Scan(cfg, cfg.optstring, "", rest2))
  {
  }

  lemma UnchangedBefore(p: Parse)
    ensures Before([], [], [], p) == p
  {
  }

  lemma OptionCallFollowsScan(cfg: Config, optstring: string, next: string, skipped: seq<string>, rest: seq<string>)
    requires Decodable(cfg, optstring) && Decodable(cfg, cfg.optstring) && next != "" && rest != []
    ensures var p := Before([], [], skipped, Scan(cfg, optstring, next, rest));
            match OptionCall(cfg, optstring, next, skipped, rest)
            case Finish(_, _) => false
            case Overrun(e) => p.events == [e] && p.overrun
            case Report(e, o, n, next2, rest2) =>
              (next2 != "" ==> rest2 != []) && p == Before([e], o, n, Scan(cfg, cfg.optstring, next2, rest2))
  {
    hide Decode;
    var o := Decode(cfg, optstring, rest[0], next, rest[1..]);
    DecodeProgress(cfg, optstring, rest[0], next, rest[1..]);
    assert skipped + [] == skipped;
    if o.advance <= |rest| {
      var q := Scan(cfg, cfg.optstring, o.next, rest[o.advance..]);
      assert Scan(cfg, optstring, next, rest) == Before([o.event], rest[..o.advance], [], q);
      assert skipped + ([] + q.nonopts) == skipped + q.nonopts;
    }
  }
}
