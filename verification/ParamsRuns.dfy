/** Whole command lines: which ones the handlers of `Params` accept, and what the settings then are. */
module ParamsRuns {
  import opened Basics
  import opened Getopt
  import opened GetoptScanner
  import opened Params

  // ---------- what a command line says ----------

  function Init(events: seq<Event>): seq<Event>
    requires events != []
  {
    events[..|events| - 1]
  }

  function Last<T>(s: seq<T>): T
    requires s != []
  {
    s[|s| - 1]
  }

  /** The arguments given to an option, in order. */
  function Args(events: seq<Event>, c: char): seq<string> {
    if events == [] then []
    else Args(Init(events), c) + (if Last(events).opt == c then [Last(events).arg] else [])
  }

  /** The letters of the options for `rename`, in order. */
  function Renames(events: seq<Event>): string {
    if events == [] then ""
    else Renames(Init(events)) + (if ActionOf(Last(events).opt) == Rename then [Last(events).opt] else [])
  }

  /** The strings passed along with `-t` and `-T` behind other options for `rename`. Neither takes an argument, so
      these are leftovers of earlier options. */
  function Leftovers(events: seq<Event>): seq<string> {
    if events == [] then []
    else Leftovers(Init(events)) + (if LateFlag(Init(events), Last(events).opt) then [Last(events).arg] else [])
  }

  /** No option for `rename` has fixed the format yet. */
  predicate Open(letters: string) {
    letters == "" || (|letters| == 1 && letters[0] == 't')
  }

  predicate LateFlag(before: seq<Event>, c: char) {
    (c == 't' || c == 'T') && Renames(before) != ""
  }

  /** All targets named by the options for an action. */
  function TargetsOf(p: Parsers, events: seq<Event>, a: Action): set<nat> {
    if events == [] then {}
    else
      TargetsOf(p, Init(events), a)
      + (if ActionOf(Last(events).opt) == a then p.targets(Last(events).arg, a) else {})
  }

  /** Two options that may stand on one command line. */
  predicate Agree(a: Action, b: Action) {
    Follows(a, b) || Follows(b, a)
  }

  /** An option for `a` is served by `b`: only `modify` can be part of something else. */
  predicate Follows(a: Action, b: Action) {
    a == NoAction || a == b || (a == Modify && (b == Extract || b == Insert))
  }

  predicate HasAction(events: seq<Event>, a: Action) {
    exists i | 0 <= i < |events| :: ActionOf(events[i].opt) == a
  }

  predicate Compatible(events: seq<Event>) {
    forall i, j | 0 <= i < |events| && 0 <= j < |events| :: Agree(ActionOf(events[i].opt), ActionOf(events[j].opt))
  }

  /** The action that all options lead to. */
  predicate Settled(events: seq<Event>, a: Action) {
    && (forall i | 0 <= i < |events| :: Follows(ActionOf(events[i].opt), a))
    && (a == NoAction || HasAction(events, a))
  }

  /** The argument can be read, or need not be read again. */
  predicate CanRead(p: Parsers, c: char, arg: string, given: bool) {
    var a := ActionOf(c);
    if a == Adjust then given || Value(p, c, arg).Some?
    else if a == Print then given || (if c == 'P' then PrintFlagsOk(arg) else PrintModeOk(arg, p.release))
    else if HasTargets(a) then p.targets(arg, a) != {}
    else if c == 'Q' then LogLevelOk(arg)
    else if c == 'g' then p.grep(arg)
    else a != NoAction || Neutral(c)
  }

  /** The argument of an option can be read; for `-a`, `-Y`, `-O`, `-D`, `-p` and `-P` only the first one counts. */
  predicate ArgOk(p: Parsers, before: seq<Event>, c: char, arg: string) {
    CanRead(p, c, arg, if ActionOf(c) == Adjust then Args(before, c) != [] else HasAction(before, Print))
  }

  predicate Readable(p: Parsers, events: seq<Event>) {
    forall i | 0 <= i < |events| :: ArgOk(p, events[..i], events[i].opt, events[i].arg)
  }

  // ---------- what the settings then are ----------

  function FirstValue(f: string -> Option<int>, args: seq<string>): Option<int> {
    if args == [] then None else f(args[0])
  }

  function LastOr(args: seq<string>, default: string): string {
    if args == [] then default else Last(args)
  }

  /** The file name format: the last leftover, or else the first `-r`, unless `-T` came before it. */
  function FormatOf(events: seq<Event>): string {
    if Leftovers(events) != [] then Last(Leftovers(events))
    else if Args(events, 'r') != [] && Renames(events) != "" && Renames(events)[0] != 'T' then Args(events, 'r')[0]
    else FORMAT
  }

  predicate HasTargets(a: Action) {
    a == Erase || a == Extract || a == Insert
  }

  predicate AdjustPart(p: Parsers, a: Adjusting, events: seq<Event>) {
    && a.seconds == FirstValue(p.time, Args(events, 'a')) && (Args(events, 'a') != [] ==> a.seconds.Some?)
    && YodPart(p, a, events, 'Y') && YodPart(p, a, events, 'O') && YodPart(p, a, events, 'D')
  }

  predicate YodPart(p: Parsers, a: Adjusting, events: seq<Event>, c: char) {
    && (c in a.yod <==> Args(events, c) != [])
    && (c in a.yod ==> Some(a.yod[c]) == p.number(Args(events, c)[0]))
  }

  /** `-t` and `-T` count only as the first option for `rename`. */
  predicate RenamePart(r: Renaming, events: seq<Event>) {
    var letters := Renames(events);
    && (r.timestamp <==> letters != "" && letters[0] == 't')
    && (r.timestampOnly <==> letters != "" && letters[0] == 'T')
    && (r.formatSet || r.timestampOnly <==> !Open(letters))
    && r.format == FormatOf(events)
  }

  predicate TargetPart(p: Parsers, a: Action, target: set<nat>, events: seq<Event>) {
    target == if HasTargets(a) then TargetsOf(p, events, a) else TARGETS
  }

  predicate ModifyPart(p: Parsers, m: Modifying, events: seq<Event>) {
    && m.comment == (if Args(events, 'c') == [] then "" else p.escapes(Last(Args(events, 'c'))))
    && m.cmdFiles == Args(events, 'm') && m.cmdLines == Args(events, 'M')
  }

  predicate SettingsPart(s: Settings, events: seq<Event>) {
    && s.directory == LastOr(Args(events, 'l'), "") && s.suffix == LastOr(Args(events, 'S'), "")
    && (s.help <==> Args(events, 'h') != []) && (s.version <==> Args(events, 'V') != [])
  }

  /** The settings are those that the options, taken together, ask for. */
  predicate Explained(p: Parsers, s: State, events: seq<Event>) {
    && Settled(events, s.action) && AdjustPart(p, s.adjusting, events) && RenamePart(s.renaming, events)
    && TargetPart(p, s.action, s.target, events) && ModifyPart(p, s.modifying, events)
    && SettingsPart(s.settings, events) && s.files == [] && s.first
  }

  // ---------- one more option ----------

  lemma ArgsSnoc(events: seq<Event>, e: Event, c: char)
    ensures Args(events + [e], c) == Args(events, c) + (if e.opt == c then [e.arg] else [])
  {
  }

  lemma RenamesSnoc(events: seq<Event>, e: Event)
    ensures Renames(events + [e]) == Renames(events) + (if ActionOf(e.opt) == Rename then [e.opt] else [])
    ensures Leftovers(events + [e]) == Leftovers(events) + (if LateFlag(events, e.opt) then [e.arg] else [])
  {
  }

  lemma TargetsSnoc(p: Parsers, events: seq<Event>, e: Event, a: Action)
    ensures TargetsOf(p, events + [e], a)
         == TargetsOf(p, events, a) + (if ActionOf(e.opt) == a then p.targets(e.arg, a) else {})
  {
  }

  lemma HasSnoc(events: seq<Event>, e: Event, a: Action)
    ensures HasAction(events + [e], a) <==> HasAction(events, a) || ActionOf(e.opt) == a
  {
    var all := events + [e];
    assert all[|events|] == e;
    forall i | 0 <= i < |events| ensures all[i] == events[i] {
    }
  }

  /** No target is named for an action without an option for it. */
  lemma {:induction false} NoTargets(p: Parsers, events: seq<Event>, a: Action)
    requires !HasAction(events, a)
    ensures TargetsOf(p, events, a) == {}
  {
    if events != [] {
      assert ActionOf(events[|events| - 1].opt) != a;
      NoTargets(p, Init(events), a);
    }
  }

  /** The options so far agree with one more exactly when their action does. */
  lemma AgreeSnoc(events: seq<Event>, e: Event, a: Action)
    requires Settled(events, a)
    ensures Compatible(events + [e]) <==> Agree(ActionOf(e.opt), a)
  {
    var all, k := events + [e], ActionOf(e.opt);
    assert all[|events|] == e;
    if Agree(k, a) {
      forall i | 0 <= i < |all| ensures Follows(ActionOf(all[i].opt), a) || ActionOf(all[i].opt) == k {
      }
    } else {
      var i :| 0 <= i < |events| && ActionOf(events[i].opt) == a;
      assert all[i] == events[i];
    }
  }

  /** The action after one more option. */
  function Joined(a: Action, k: Action): Action {
    if Follows(a, k) && k != NoAction then k else a
  }

  /** What an accepted option does to each part of the settings. */
  lemma Effect(p: Parsers, s: State, c: char, arg: string)
    requires OnOption(p, s, c, arg).1 == 0
    requires s.action == NoAction && ActionOf(c) == Adjust ==> !Given(s.adjusting, c)
    ensures var t, a := OnOption(p, s, c, arg).0, ActionOf(c);
            && t.action == Joined(s.action, a)
            && t.adjusting == (if a == Adjust then Adjusted(p, s.adjusting, c, arg) else s.adjusting)
            && t.renaming == (if a == Rename then Renamed(s.renaming, s.action == NoAction, c, arg) else s.renaming)
            && t.modifying == (if a == Modify then Modified(p, s.modifying, c, arg) else s.modifying)
            && t.settings == (if a == NoAction then Set(s.settings, c, arg) else s.settings)
            && t.target == (if HasTargets(a) then (if s.action == a then s.target else {}) + p.targets(arg, a)
                            else s.target)
            && t.files == s.files && t.first == s.first
  {
  }

  lemma SettledSnoc(events: seq<Event>, e: Event, a: Action)
    requires Settled(events, a) && Agree(ActionOf(e.opt), a)
    ensures Settled(events + [e], Joined(a, ActionOf(e.opt)))
  {
    var all, b := events + [e], Joined(a, ActionOf(e.opt));
    HasSnoc(events, e, b);
    forall i | 0 <= i < |all| ensures Follows(ActionOf(all[i].opt), b) {
      if i < |events| {
        assert all[i] == events[i];
      }
    }
  }

  lemma AdjustStep(p: Parsers, a: Adjusting, events: seq<Event>, e: Event)
    requires AdjustPart(p, a, events)
    requires ActionOf(e.opt) == Adjust ==> Given(a, e.opt) || Value(p, e.opt, e.arg).Some?
    ensures AdjustPart(p, if ActionOf(e.opt) == Adjust then Adjusted(p, a, e.opt, e.arg) else a, events + [e])
  {
    ArgsSnoc(events, e, 'a');
    ArgsSnoc(events, e, 'Y');
    ArgsSnoc(events, e, 'O');
    ArgsSnoc(events, e, 'D');
  }

  /** While the format is open nothing has set it, and afterwards something has, unless `-T` came first. */
  lemma {:induction false} OpenFormat(events: seq<Event>)
    ensures Open(Renames(events)) ==> Leftovers(events) == [] && Args(events, 'r') == []
    ensures !Open(Renames(events)) && Renames(events)[0] != 'T' ==> Leftovers(events) != [] || Args(events, 'r') != []
    ensures Args(events, 'r') != [] ==> Renames(events) != ""
  {
    if events != [] {
      var before, e := Init(events), Last(events);
      OpenFormat(before);
      assert events == before + [e];
      ArgsSnoc(before, e, 'r');
      RenamesSnoc(before, e);
      FirstKept(Renames(before), if ActionOf(e.opt) == Rename then [e.opt] else []);
    }
  }

  lemma FirstKept(letters: string, more: string)
    requires |more| <= 1
    ensures letters != "" ==> (letters + more)[0] == letters[0]
    ensures letters == "" ==> letters + more == more
    ensures more == "" ==> letters + more == letters
    ensures more != "" && letters != "" ==> !Open(letters + more)
  {
  }

  /** An option for `rename` sets the format when it is the first `-r`, with nothing or a `-t` before it, or a late
      `-t` or `-T`. */
  lemma FormatSnoc(events: seq<Event>, e: Event)
    ensures FormatOf(events + [e]) ==
              if LateFlag(events, e.opt) || (e.opt == 'r' && Open(Renames(events))) then e.arg else FormatOf(events)
  {
    ArgsSnoc(events, e, 'r');
    RenamesSnoc(events, e);
    FirstKept(Renames(events), if ActionOf(e.opt) == Rename then [e.opt] else []);
    OpenFormat(events);
  }

  lemma RenameStep(r: Renaming, events: seq<Event>, e: Event)
    requires RenamePart(r, events)
    ensures RenamePart(if ActionOf(e.opt) == Rename then Renamed(r, Renames(events) == "", e.opt, e.arg) else r,
                       events + [e])
  {
    FormatSnoc(events, e);
    RenamesSnoc(events, e);
    FirstKept(Renames(events), if ActionOf(e.opt) == Rename then [e.opt] else []);
  }

  lemma {:induction false} RenamesAny(events: seq<Event>)
    ensures Renames(events) != "" <==> HasAction(events, Rename)
  {
    if events != [] {
      RenamesAny(Init(events));
      HasSnoc(Init(events), Last(events), Rename);
      assert events == Init(events) + [Last(events)];
    }
  }

  lemma RenamesSettled(events: seq<Event>, a: Action)
    requires Settled(events, a)
    ensures Renames(events) != "" <==> a == Rename
  {
    RenamesAny(events);
  }

  lemma TargetStep(p: Parsers, a: Action, target: set<nat>, events: seq<Event>, e: Event, b: Action)
    requires TargetPart(p, a, target, events) && Settled(events, a) && b == ActionOf(e.opt) && Agree(b, a)
    ensures TargetPart(p, Joined(a, b),
                       if HasTargets(b) then (if a == b then target else {}) + p.targets(e.arg, b) else target,
                       events + [e])
  {
    TargetsSnoc(p, events, e, b);
    TargetsSnoc(p, events, e, a);
    if a != b && HasTargets(b) {
      assert !HasAction(events, b);
      NoTargets(p, events, b);
    }
  }

  lemma ModifyStep(p: Parsers, m: Modifying, events: seq<Event>, e: Event)
    requires ModifyPart(p, m, events)
    ensures ModifyPart(p, if ActionOf(e.opt) == Modify then Modified(p, m, e.opt, e.arg) else m, events + [e])
  {
    ArgsSnoc(events, e, 'c');
    ArgsSnoc(events, e, 'm');
    ArgsSnoc(events, e, 'M');
  }

  lemma SettingsStep(s: Settings, events: seq<Event>, e: Event)
    requires SettingsPart(s, events)
    ensures SettingsPart(if ActionOf(e.opt) == NoAction then Set(s, e.opt, e.arg) else s, events + [e])
  {
    ArgsSnoc(events, e, 'l');
    ArgsSnoc(events, e, 'S');
    ArgsSnoc(events, e, 'h');
    ArgsSnoc(events, e, 'V');
  }

  lemma {:induction false} AdjustAny(events: seq<Event>)
    ensures HasAction(events, Adjust) <==>
              Args(events, 'a') != [] || Args(events, 'Y') != [] || Args(events, 'O') != [] || Args(events, 'D') != []
  {
    if events != [] {
      AdjustAny(Init(events));
      HasSnoc(Init(events), Last(events), Adjust);
      assert events == Init(events) + [Last(events)];
    }
  }

  lemma ExplainedSnoc(p: Parsers, s: State, events: seq<Event>, e: Event)
    requires Explained(p, s, events) && Agree(ActionOf(e.opt), s.action) && ArgOk(p, events, e.opt, e.arg)
    requires OnOption(p, s, e.opt, e.arg).1 == 0
    ensures Explained(p, OnOption(p, s, e.opt, e.arg).0, events + [e])
  {
    AdjustAny(events);
    RenamesSettled(events, s.action);
    Effect(p, s, e.opt, e.arg);
    SettledSnoc(events, e, s.action);
    AdjustStep(p, s.adjusting, events, e);
    RenameStep(s.renaming, events, e);
    TargetStep(p, s.action, s.target, events, e, ActionOf(e.opt));
    ModifyStep(p, s.modifying, events, e);
    SettingsStep(s.settings, events, e);
  }

  lemma ErrorIff(p: Parsers, s: State, c: char, arg: string, given: bool)
    requires ActionOf(c) == Adjust ==> given == Given(s.adjusting, c)
    requires ActionOf(c) == Print ==> given == (s.action == Print)
    ensures OnOption(p, s, c, arg).1 == 0 <==> Agree(ActionOf(c), s.action) && CanRead(p, c, arg, given)
  {
  }

  lemma AdjustGiven(p: Parsers, a: Adjusting, events: seq<Event>, c: char)
    requires AdjustPart(p, a, events) && ActionOf(c) == Adjust
    ensures Given(a, c) <==> Args(events, c) != []
  {
    assert c == 'a' || c == 'Y' || c == 'O' || c == 'D';
  }

  lemma PrintGiven(events: seq<Event>, a: Action)
    requires Settled(events, a) && Agree(Print, a)
    ensures a == Print <==> HasAction(events, Print)
  {
  }

  /** An option is accepted exactly when it agrees with the action so far and its argument can be read. */
  lemma OptionAcceptedIff(p: Parsers, s: State, events: seq<Event>, c: char, arg: string)
    requires Settled(events, s.action) && AdjustPart(p, s.adjusting, events)
    ensures OnOption(p, s, c, arg).1 == 0 <==> Agree(ActionOf(c), s.action) && ArgOk(p, events, c, arg)
  {
    if ActionOf(c) == Adjust {
      AdjustGiven(p, s.adjusting, events, c);
      ErrorIff(p, s, c, arg, Args(events, c) != []);
    } else {
      if Agree(Print, s.action) {
        PrintGiven(events, s.action);
      }
      ErrorIff(p, s, c, arg, s.action == Print);
    }
  }

  // ---------- whole command lines ----------

  lemma ReadableSnoc(p: Parsers, events: seq<Event>, e: Event)
    requires Readable(p, events)
    ensures Readable(p, events + [e]) <==> ArgOk(p, events, e.opt, e.arg)
  {
    var all := events + [e];
    assert all[|events|] == e && all[..|events|] == events;
    forall i | 0 <= i < |events| ensures ArgOk(p, all[..i], all[i].opt, all[i].arg) {
      assert all[..i] == events[..i] && all[i] == events[i];
    }
  }

  /** What holds of a command line holds of its beginning. */
  lemma GoodPrefix(p: Parsers, pre: seq<Event>, post: seq<Event>)
    requires Compatible(pre + post) && Readable(p, pre + post)
    ensures Compatible(pre) && Readable(p, pre)
  {
    var all := pre + post;
    forall i | 0 <= i < |pre| ensures all[i] == pre[i] && ArgOk(p, pre[..i], pre[i].opt, pre[i].arg) {
      assert all[..i] == pre[..i];
    }
  }

  lemma OneMore(p: Parsers, s: State, seen: seq<Event>, e: Event, next: seq<Event>)
    requires Explained(p, s, seen) && Readable(p, seen) && next == seen + [e]
    ensures var (t, errors) := OnOption(p, s, e.opt, e.arg);
            && (errors == 0 <==> Compatible(next) && Readable(p, next))
            && (errors == 0 ==> Explained(p, t, next))
  {
    OptionAcceptedIff(p, s, seen, e.opt, e.arg);
    AgreeSnoc(seen, e, s.action);
    ReadableSnoc(p, seen, e);
    if OnOption(p, s, e.opt, e.arg).1 == 0 {
      ExplainedSnoc(p, s, seen, e);
    }
  }

  /** The callback accepts just what keeps the command line good, and keeps `holds`. */
  ghost predicate Keeps<H(!new)>(handler: Handler<H>, holds: (H, seq<Event>) -> bool, good: seq<Event> -> bool) {
    forall h, seen, e: Event :: holds(h, seen) ==>
      && (handler(h, e.opt, e.arg, e.opt).1 == 0 <==> good(seen + [e]))
      && (good(seen + [e]) ==> holds(handler(h, e.opt, e.arg, e.opt).0, seen + [e]))
  }

  ghost predicate PrefixClosed(good: seq<Event> -> bool) {
    forall pre, post :: good(pre + post) ==> good(pre)
  }

  lemma {:induction false} AcceptIff<H(!new)>(handler: Handler<H>, holds: (H, seq<Event>) -> bool,
                                              good: seq<Event> -> bool, h: H, seen: seq<Event>, rest: seq<Event>)
    requires Keeps(handler, holds, good) && PrefixClosed(good) && holds(h, seen) && good(seen)
    ensures var r := Accept(handler, h, rest);
            (r.Some? <==> good(seen + rest)) && (r.Some? ==> holds(r.value, seen + rest))
    decreases |rest|
  {
    if rest == [] {
      assert seen + rest == seen;
    } else {
      var e, tail := rest[0], rest[1..];
      var next := seen + [e];
      assert seen + rest == next + tail;
      if handler(h, e.opt, e.arg, e.opt).1 == 0 {
        AcceptIff(handler, holds, good, handler(h, e.opt, e.arg, e.opt).0, next, tail);
      }
    }
  }

  function Holds(p: Parsers): (State, seq<Event>) -> bool {
    (s, seen) => Explained(p, s, seen) && Readable(p, seen)
  }

  function Good(p: Parsers): seq<Event> -> bool {
    seen => Compatible(seen) && Readable(p, seen)
  }

  lemma HandlerKeeps(p: Parsers)
    ensures Keeps(OptionHandler(p), Holds(p), Good(p))
  {
    forall s, seen, e: Event | Holds(p)(s, seen)
      ensures (OnOption(p, s, e.opt, e.arg).1 == 0 <==> Good(p)(seen + [e]))
              && (Good(p)(seen + [e]) ==> Holds(p)(OnOption(p, s, e.opt, e.arg).0, seen + [e]))
    {
      OneMore(p, s, seen, e, seen + [e]);
    }
  }

  lemma GoodClosed(p: Parsers)
    ensures PrefixClosed(Good(p))
  {
    forall pre, post | Good(p)(pre + post) ensures Good(p)(pre) {
      GoodPrefix(p, pre, post);
    }
  }

  lemma NothingYet(p: Parsers)
    ensures Holds(p)(Initial(), []) && Good(p)([])
  {
    assert Args([], 'a') == [] && Leftovers([]) == [] && Renames([]) == "";
    assert Explained(p, Initial(), []);
  }

  /** The options are accepted, in whatever order they come, exactly when every two of them agree and their
      arguments can be read; the settings are then what the options together ask for. */
  lemma OptionsAcceptedIff(p: Parsers, events: seq<Event>)
    ensures var r := Accept(OptionHandler(p), Initial(), events);
            && (r.Some? <==> Compatible(events) && Readable(p, events))
            && (r.Some? ==> Explained(p, r.value, events))
  {
    HandlerKeeps(p);
    GoodClosed(p);
    NothingYet(p);
    assert [] + events == events;
    AcceptIff(OptionHandler(p), Holds(p), Good(p), Initial(), [], events);
  }

  /** The operands are the files, but for an action named first. */
  function AfterOperands(s: State, operands: seq<string>): Option<State> {
    if operands == [] then Some(s)
    else
      var named := Named(operands[0]);
      if named == NoAction then
        Some(s.(first := false, action := if s.action == NoAction then Print else s.action,
                files := s.files + operands))
      else if Follows(s.action, named) then Some(s.(first := false, action := named, files := s.files + operands[1..]))
      else None
  }

  lemma {:induction false} MoreFiles(s: State, operands: seq<string>)
    requires !s.first
    ensures AcceptOperands(Operands(), s, operands) == Some(s.(files := s.files + operands))
    decreases |operands|
  {
    if operands == [] {
      assert s.files + operands == s.files;
    } else {
      var t := s.(files := s.files + [operands[0]]);
      MoreFiles(t, operands[1..]);
      assert t.files + operands[1..] == s.files + operands;
    }
  }

  lemma OperandsAre(s: State, operands: seq<string>)
    requires s.first
    ensures AcceptOperands(Operands(), s, operands) == AfterOperands(s, operands)
  {
    if operands != [] {
      var t := OnOperand(s, operands[0]).0;
      MoreFiles(t, operands[1..]);
      assert operands == [operands[0]] + operands[1..];
      assert s.files + [operands[0]] + operands[1..] == s.files + operands;
    }
  }

  /** All options are served by `a` exactly when their action is. */
  lemma SettledFollows(events: seq<Event>, a: Action, named: Action)
    requires Settled(events, a) && named != NoAction
    ensures Follows(a, named) <==> forall i | 0 <= i < |events| :: Follows(ActionOf(events[i].opt), named)
  {
  }

  /** The action that the operands name serves every option. */
  predicate NamesWell(events: seq<Event>, operands: seq<string>) {
    operands != [] && Named(operands[0]) != NoAction ==>
      forall i | 0 <= i < |events| :: Follows(ActionOf(events[i].opt), Named(operands[0]))
  }

  /** What the callbacks make of options and operands. */
  function Result(p: Parsers, events: seq<Event>, operands: seq<string>): Option<State> {
    var r := Accept(OptionHandler(p), Initial(), events);
    if r.Some? then AcceptOperands(Operands(), r.value, operands) else None
  }

  lemma OutcomeIs(p: Parsers, optstring: string, words: seq<string>)
    requires words != []
    ensures var told := Told(optstring, words[1..], "");
            Outcome(OptionHandler(p), Operands(), Initial(), words, optstring, "")
            == if told.None? then None else Result(p, told.value.0, told.value.1)
  {
  }

  lemma ToldAcceptedIff(p: Parsers, events: seq<Event>, operands: seq<string>)
    ensures Result(p, events, operands).Some?
            <==> Compatible(events) && Readable(p, events) && NamesWell(events, operands)
  {
    OptionsAcceptedIff(p, events);
    var r := Accept(OptionHandler(p), Initial(), events);
    if r.Some? {
      OperandsAre(r.value, operands);
      if operands != [] && Named(operands[0]) != NoAction {
        SettledFollows(events, r.value.action, Named(operands[0]));
      }
    }
  }

  /** A whole command line: it is accepted exactly when its words can be parsed, its options are accepted, and
      the action it names serves every option. */
  lemma LineAcceptedIff(p: Parsers, optstring: string, words: seq<string>)
    requires words != []
    ensures var told := Told(optstring, words[1..], "");
            Outcome(OptionHandler(p), Operands(), Initial(), words, optstring, "").Some? <==>
              && told.Some? && Compatible(told.value.0) && Readable(p, told.value.0)
              && NamesWell(told.value.0, told.value.1)
  {
    var told := Told(optstring, words[1..], "");
    OutcomeIs(p, optstring, words);
    if told.Some? {
      ToldAcceptedIff(p, told.value.0, told.value.1);
    }
  }

  /** The final settings of an accepted command line: its action, and its files. */
  predicate Final(t: State, events: seq<Event>, operands: seq<string>) {
    && (forall i | 0 <= i < |events| :: Follows(ActionOf(events[i].opt), t.action))
    && (t.action == NoAction <==>
          operands == [] && forall i | 0 <= i < |events| :: ActionOf(events[i].opt) == NoAction)
    && t.files == (if operands != [] && Named(operands[0]) != NoAction then operands[1..] else operands)
  }

  lemma AcceptedSettled(p: Parsers, events: seq<Event>)
    ensures var r := Accept(OptionHandler(p), Initial(), events);
            r.Some? ==> Settled(events, r.value.action) && r.value.files == [] && r.value.first
  {
    OptionsAcceptedIff(p, events);
  }

  lemma ToldFinal(p: Parsers, events: seq<Event>, operands: seq<string>)
    ensures var o := Result(p, events, operands); o.Some? ==> Final(o.value, events, operands)
  {
    AcceptedSettled(p, events);
    var r := Accept(OptionHandler(p), Initial(), events);
    if r.Some? {
      OperandsAre(r.value, operands);
      assert [] + operands == operands;
    }
  }

  /** In an accepted command line the final action serves every option given: `-a`, `-Y`, `-O`, `-D` mean adjust,
      `-r`, `-t`, `-T` rename, and so on; `-c`, `-m`, `-M` mean modify, extract or insert. It is missing only without
      operands and without options for an action. */
  lemma FinalAction(p: Parsers, optstring: string, words: seq<string>)
    requires words != []
    ensures var told := Told(optstring, words[1..], "");
            var o := Outcome(OptionHandler(p), Operands(), Initial(), words, optstring, "");
            o.Some? ==> told.Some? && Final(o.value, told.value.0, told.value.1)
  {
    var told := Told(optstring, words[1..], "");
    OutcomeIs(p, optstring, words);
    if told.Some? {
      ToldFinal(p, told.value.0, told.value.1);
    }
  }

  /** Operands leave the settings alone, and take the action only where all options may go. */
  lemma OperandsKeep(events: seq<Event>, operands: seq<string>, s: State, t: State)
    requires Settled(events, s.action) && RenamePart(s.renaming, events) && s.files == []
    requires AfterOperands(s, operands) == Some(t)
    ensures t.adjusting == s.adjusting && t.renaming == s.renaming
    ensures t.modifying == s.modifying && t.settings == s.settings
    ensures Follows(s.action, t.action) && (operands == [] ==> t.files == [])
    ensures operands != [] ==> t.action != NoAction
    ensures t.renaming.timestamp || t.renaming.timestampOnly ==> t.action == Rename
  {
    RenamesSettled(events, s.action);
  }

  /** Only these of the final tests can fail for an accepted command line: those for `-t` and `-T` never do, and
      the one for a missing action only when a file is missing too. */
  lemma ConsistentIff(p: Parsers, events: seq<Event>, operands: seq<string>, s: State, t: State)
    requires Explained(p, s, events) && AfterOperands(s, operands) == Some(t)
    ensures Consistent(p, t) <==>
              && t.files != []
              && (t.action == Adjust ==> HasAction(events, Adjust))
              && (t.action == Modify ==>
                    Args(events, 'm') != [] || Args(events, 'M') != []
                    || (Args(events, 'c') != [] && p.escapes(Last(Args(events, 'c'))) != ""))
              && (Args(events, 'm') != [] ==> p.cmdFiles(Args(events, 'm')))
              && (Args(events, 'M') != [] ==> p.cmdLines(Args(events, 'M')))
              && (LastOr(Args(events, 'l'), "") != "" ==> t.action == Insert || t.action == Extract)
              && (LastOr(Args(events, 'S'), "") != "" ==> t.action == Insert)
  {
    OperandsKeep(events, operands, s, t);
    AdjustAny(events);
  }

  // ---------- the time stamp ----------

  lemma {:induction false} TimestampGiven(events: seq<Event>)
    ensures Renames(events) != "" && Renames(events)[0] == 't' ==> Args(events, 't') != []
  {
    if events != [] {
      TimestampGiven(Init(events));
    }
  }

  /** In an accepted list of options `-t` sets the time stamp, as it should, exactly when it is the first option for
      `rename`. */
  lemma TimestampIff(p: Parsers, events: seq<Event>)
    ensures var r := Accept(OptionHandler(p), Initial(), events);
            r.Some? ==>
              ((r.value.renaming.timestamp <==> Args(events, 't') != [])
               <==> Args(events, 't') == [] || (Renames(events) != "" && Renames(events)[0] == 't'))
  {
    OptionsAcceptedIff(p, events);
    TimestampGiven(events);
    var r := Accept(OptionHandler(p), Initial(), events);
    if r.Some? {
      TimestampSet(r.value.renaming, events);
    }
  }

  lemma TimestampSet(r: Renaming, events: seq<Event>)
    requires RenamePart(r, events)
    ensures r.timestamp <==> Renames(events) != "" && Renames(events)[0] == 't'
  {
  }

  /** So `-r FMT -t` renames without setting the time stamp. */
  lemma TimestampLost(p: Parsers, format: string)
    ensures var r := Accept(OptionHandler(p), Initial(), [Event('r', format), Event('t', format)]);
            r.Some? && r.value.action == Rename && !r.value.renaming.timestamp && r.value.renaming.format == format
  {
    var h, rest := OptionHandler(p), [Event('t', format)];
    var s := OnOption(p, Initial(), 'r', format).0;
    var t := OnOption(p, s, 't', format).0;
    assert h(Initial(), 'r', format, 'r') == (s, 0) && h(s, 't', format, 't') == (t, 0);
    assert rest[1..] == [] && Accept(h, t, []) == Some(t);
    assert Accept(h, s, rest) == Some(t);
    assert ([Event('r', format)] + rest)[1..] == rest;
  }
}
