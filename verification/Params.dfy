/** `Params`: the handlers that turn options and operands into one action with its settings. */
module Params {
  import opened Basics
  import opened GetoptScanner

  datatype Action =
    | NoAction | Adjust | Print | Rename | Erase | Extract | Insert | Modify | FixIso | FixCom

  /** The readers of option arguments. `targets` is empty for an argument that is refused. */
  datatype Parsers = Parsers(
    time: string -> Option<int>,
    number: string -> Option<int>,
    grep: string -> bool,
    targets: (string, Action) -> set<nat>,
    escapes: string -> string,
    cmdFiles: seq<string> -> bool,
    cmdLines: seq<string> -> bool,
    release: bool)

  datatype Adjusting = Adjusting(seconds: Option<int>, yod: map<char, int>)

  datatype Renaming = Renaming(timestamp: bool, timestampOnly: bool, format: string, formatSet: bool)

  datatype Modifying = Modifying(comment: string, cmdFiles: seq<string>, cmdLines: seq<string>)

  datatype Settings = Settings(directory: string, suffix: string, help: bool, version: bool)

  /** What the consistency of a command line depends on. */
  datatype State = State(
    action: Action,
    adjusting: Adjusting,
    renaming: Renaming,
    modifying: Modifying,
    settings: Settings,
    target: set<nat>,
    files: seq<string>,
    first: bool)

  const FORMAT: string := "%Y%m%d_%H%M%S"
  /** Exif, IPTC, comment and XMP data. */
  const TARGETS: set<nat> := {1, 2, 4, 16}

  function Initial(): State {
    State(NoAction, Adjusting(None, map[]), Renaming(false, false, FORMAT, false), Modifying("", [], []),
          Settings("", "", false, false), TARGETS, [], true)
  }

  // ---------- the letters ----------

  predicate OneOf(c: char, letters: string) {
    c in letters
  }

  /** The action that an option is for. */
  function ActionOf(c: char): Action {
    if c == 'a' || c == 'Y' || c == 'O' || c == 'D' then Adjust
    else if c == 'r' || c == 't' || c == 'T' then Rename
    else if c == 'p' || c == 'P' then Print
    else if c == 'd' then Erase
    else if c == 'e' || c == 'C' then Extract
    else if c == 'i' then Insert
    else if c == 'c' || c == 'm' || c == 'M' then Modify
    else NoAction
  }

  /** The options without an action. */
  predicate Neutral(c: char) {
    || c == 'h' || c == 'V' || c == 'l' || c == 'S' || c == 'Q' || c == 'g'
    || c == 'v' || c == 'q' || c == 'k' || c == 'b' || c == 'u' || c == 'f' || c == 'F' || c == 'K' || c == 'n'
  }

  predicate LogLevelOk(arg: string) {
    arg != "" && OneOf(arg[0], "dDiIwWeEmM")
  }

  predicate PrintModeOk(arg: string, release: bool) {
    arg != "" && (OneOf(arg[0], "saetvhixcpCSX") || (arg[0] == 'R' && !release))
  }

  predicate PrintFlagOk(c: char) {
    OneOf(c, "EIXxgklnycsvthVd")
  }

  predicate PrintFlagsOk(arg: string) {
    forall i | 0 <= i < |arg| :: PrintFlagOk(arg[i])
  }

  // ---------- the handlers, on values ----------

  function Set(s: Settings, c: char, arg: string): Settings {
    if c == 'h' then s.(help := true)
    else if c == 'V' then s.(version := true)
    else if c == 'l' then s.(directory := arg)
    else if c == 'S' then s.(suffix := arg)
    else s
  }

  function OnNeutral(p: Parsers, s: State, c: char, arg: string): (State, nat) {
    (s.(settings := Set(s.settings, c, arg)),
     if c == 'Q' then if LogLevelOk(arg) then 0 else 1
     else if c == 'g' then if p.grep(arg) then 0 else 1
     else if Neutral(c) then 0 else 1)
  }

  function Renamed(r: Renaming, isFirst: bool, c: char, arg: string): Renaming {
    if isFirst then
      if c == 'r' then r.(format := arg, formatSet := true)
      else if c == 't' then r.(timestamp := true)
      else r.(timestampOnly := true)
    else if c == 'r' && (r.formatSet || r.timestampOnly) then r
    else r.(format := arg, formatSet := true)
  }

  function OnRename(s: State, c: char, arg: string): (State, nat) {
    if s.action == NoAction || s.action == Rename then
      (s.(action := Rename, renaming := Renamed(s.renaming, s.action == NoAction, c, arg)), 0)
    else (s, 1)
  }

  /** An adjustment is read only once. */
  function Given(a: Adjusting, c: char): bool {
    if c == 'a' then a.seconds.Some? else c in a.yod
  }

  function Value(p: Parsers, c: char, arg: string): Option<int> {
    if c == 'a' then p.time(arg) else p.number(arg)
  }

  function Adjusted(p: Parsers, a: Adjusting, c: char, arg: string): Adjusting {
    if Given(a, c) then a
    else if c == 'a' then a.(seconds := p.time(arg))
    else a.(yod := a.yod[c := if p.number(arg).Some? then p.number(arg).value else 0])
  }

  function OnAdjust(p: Parsers, s: State, c: char, arg: string): (State, nat) {
    if s.action != NoAction && s.action != Adjust then (s, 1)
    else if Given(s.adjusting, c) then (s, 0)
    else
      (s.(action := Adjust, adjusting := Adjusted(p, s.adjusting, c, arg)), if Value(p, c, arg).Some? then 0 else 1)
  }

  function OnPrint(p: Parsers, s: State, c: char, arg: string): (State, nat) {
    if s.action == NoAction then
      if c == 'P' then (s.(action := Print), if PrintFlagsOk(arg) then 0 else 1)
      else if PrintModeOk(arg, p.release) then (s.(action := Print), 0)
      else (s, 1)
    else (s, if s.action == Print then 0 else 1)
  }

  /** `-d`, `-e`, `-C` and `-i`: from no action, or from `modify` for the last three, the targets start afresh. */
  function OnTargets(p: Parsers, s: State, a: Action, arg: string): (State, nat) {
    if s.action == a || s.action == NoAction || (s.action == Modify && a != Erase) then
      (s.(action := a, target := (if s.action == a then s.target else {}) + p.targets(arg, a)),
       if p.targets(arg, a) != {} then 0 else 1)
    else (s, 1)
  }

  function Modified(p: Parsers, m: Modifying, c: char, arg: string): Modifying {
    if c == 'c' then m.(comment := p.escapes(arg))
    else if c == 'm' then m.(cmdFiles := m.cmdFiles + [arg])
    else m.(cmdLines := m.cmdLines + [arg])
  }

  function OnModify(p: Parsers, s: State, c: char, arg: string): (State, nat) {
    if s.action == NoAction || s.action == Modify || s.action == Extract || s.action == Insert then
      (s.(action := if s.action == NoAction then Modify else s.action,
          modifying := Modified(p, s.modifying, c, arg)), 0)
    else (s, 1)
  }

  function OnOption(p: Parsers, s: State, c: char, arg: string): (State, nat) {
    var a := ActionOf(c);
    if a == Rename then OnRename(s, c, arg)
    else if a == Adjust then OnAdjust(p, s, c, arg)
    else if a == Print then OnPrint(p, s, c, arg)
    else if a == Modify then OnModify(p, s, c, arg)
    else if a == NoAction then OnNeutral(p, s, c, arg)
    else OnTargets(p, s, a, arg)
  }

  /** The action that the first operand names, if it does. */
  function Named(w: string): Action {
    if w == "ad" || w == "adjust" then Adjust
    else if w == "pr" || w == "print" then Print
    else if w == "rm" || w == "delete" then Erase
    else if w == "ex" || w == "extract" then Extract
    else if w == "in" || w == "insert" then Insert
    else if w == "mv" || w == "rename" then Rename
    else if w == "mo" || w == "modify" then Modify
    else if w == "fi" || w == "fixiso" then FixIso
    else if w == "fc" || w == "fixcom" || w == "fixcomment" then FixCom
    else NoAction
  }

  /** The action named after `a` was settled by the options. */
  predicate MayName(a: Action, named: Action) {
    a == NoAction || a == named || (a == Modify && (named == Extract || named == Insert))
  }

  function OnOperand(s: State, w: string): (State, nat) {
    if s.first then
      var named := Named(w);
      if named == NoAction then
        (s.(first := false, action := if s.action == NoAction then Print else s.action, files := s.files + [w]), 0)
      else (s.(first := false, action := named), if MayName(s.action, named) then 0 else 1)
    else (s.(files := s.files + [w]), 0)
  }

  function OptionHandler(p: Parsers): Handler<State> {
    (s, c, arg, opt) => OnOption(p, s, c, arg)
  }

  function Operands(): OperandHandler<State> {
    (s, w) => OnOperand(s, w)
  }

  /** The tests made after the command line has been read. */
  predicate Consistent(p: Parsers, s: State) {
    var a, m := s.adjusting, s.modifying;
    && s.action != NoAction && s.files != []
    && (s.action == Adjust ==> Given(a, 'a') || Given(a, 'Y') || Given(a, 'O') || Given(a, 'D'))
    && (s.action == Modify ==> m.cmdFiles != [] || m.cmdLines != [] || m.comment != "")
    && (m.cmdFiles != [] ==> p.cmdFiles(m.cmdFiles))
    && (m.cmdLines != [] ==> p.cmdLines(m.cmdLines))
    && (s.settings.directory != "" ==> s.action == Insert || s.action == Extract)
    && (s.settings.suffix != "" ==> s.action == Insert)
    && (s.renaming.timestamp ==> s.action == Rename)
    && (s.renaming.timestampOnly ==> s.action == Rename)
  }

  /** A request for help or the version is not tested further. */
  predicate Accepted(p: Parsers, s: State) {
    s.settings.help || s.settings.version || Consistent(p, s)
  }

  /** Long options are replaced by their letters wherever they stand, even as the argument of another option. */
  function Short(longs: map<string, string>, w: string): string {
    if w in longs then longs[w] else w
  }

  function Shortened(longs: map<string, string>, words: seq<string>): (s: seq<string>)
    ensures |s| == |words|
  {
    seq(|words|, i requires 0 <= i < |words| => Short(longs, words[i]))
  }

  // ---------- the object ----------

  class Params {
    const parsers: Parsers
    const optstring: string
    const longs: map<string, string>
    var action: Action
    var adjust: Option<int>
    var yod: map<char, int>
    var timestamp: bool
    var timestampOnly: bool
    var format: string
    var formatSet: bool
    var target: set<nat>
    var comment: string
    var cmdFiles: seq<string>
    var cmdLines: seq<string>
    var directory: string
    var suffix: string
    var help: bool
    var version: bool
    var files: seq<string>
    var first: bool

    function Abs(): State
      reads this
    {
      State(action, Adjusting(adjust, yod), Renaming(timestamp, timestampOnly, format, formatSet),
            Modifying(comment, cmdFiles, cmdLines), Settings(directory, suffix, help, version), target, files, first)
    }

    constructor (parsers: Parsers, optstring: string, longs: map<string, string>)
      ensures Abs() == Initial()
      ensures this.parsers == parsers && this.optstring == optstring && this.longs == longs
    {
      this.parsers, this.optstring, this.longs := parsers, optstring, longs;
      action, adjust, yod, timestamp, timestampOnly := NoAction, None, map[], false, false;
      format, formatSet, target := FORMAT, false, TARGETS;
      comment, cmdFiles, cmdLines, directory, suffix := "", [], [], "", "";
      help, version, files, first := false, false, [], true;
    }

    method EvalRename(c: char, arg: string) returns (rc: nat)
      requires ActionOf(c) == Rename
      modifies this
      ensures (Abs(), rc) == OnRename(old(Abs()), c, arg)
    {
      rc := 0;
      if action == NoAction {
        action := Rename;
        if c == 'r' {
          format, formatSet := arg, true;
        } else if c == 't' {
          timestamp := true;
        } else {
          timestampOnly := true;
        }
      } else if action == Rename {
        if !(c == 'r' && (formatSet || timestampOnly)) {
          format, formatSet := arg, true;
        }
      } else {
        rc := 1;
      }
    }

    method EvalAdjust(arg: string) returns (rc: nat)
      modifies this
      ensures (Abs(), rc) == OnAdjust(parsers, old(Abs()), 'a', arg)
    {
      if action != NoAction && action != Adjust {
        return 1;
      }
      if adjust.Some? {
        return 0;
      }
      action := Adjust;
      adjust := parsers.time(arg);
      rc := if adjust.Some? then 0 else 1;
    }

    method EvalYodAdjust(c: char, arg: string) returns (rc: nat)
      requires c != 'a'
      modifies this
      ensures (Abs(), rc) == OnAdjust(parsers, old(Abs()), c, arg)
    {
      if action != NoAction && action != Adjust {
        return 1;
      }
      if c in yod {
        return 0;
      }
      action := Adjust;
      var v := parsers.number(arg);
      if v.Some? {
        yod := yod[c := v.value];
        return 0;
      }
      yod := yod[c := 0];
      return 1;
    }

    method EvalPrint(arg: string) returns (rc: nat)
      modifies this
      ensures (Abs(), rc) == OnPrint(parsers, old(Abs()), 'p', arg)
    {
      if action == NoAction {
        if PrintModeOk(arg, parsers.release) {
          action := Print;
          return 0;
        }
        return 1;
      }
      rc := if action == Print then 0 else 1;
    }

    method EvalPrintFlags(arg: string) returns (rc: nat)
      modifies this
      ensures (Abs(), rc) == OnPrint(parsers, old(Abs()), 'P', arg)
    {
      if action != NoAction {
        rc := if action == Print then 0 else 1;
        return;
      }
      action := Print;
      rc := 0;
      for i := 0 to |arg|
        invariant rc == if forall j | 0 <= j < i :: PrintFlagOk(arg[j]) then 0 else 1
      {
        if !PrintFlagOk(arg[i]) {
          rc := 1;
        }
      }
    }

    /** `evalDelete`, `evalExtract` and `evalInsert`. */
    method EvalTargets(a: Action, arg: string) returns (rc: nat)
      modifies this
      ensures (Abs(), rc) == OnTargets(parsers, old(Abs()), a, arg)
    {
      if action == a {
      } else if action == NoAction || (action == Modify && a != Erase) {
        action, target := a, {};
      } else {
        return 1;
      }
      var found := parsers.targets(arg, a);
      if found != {} {
        target := target + found;
        return 0;
      }
      assert target + found == target;
      return 1;
    }

    method EvalModify(c: char, arg: string) returns (rc: nat)
      requires ActionOf(c) == Modify
      modifies this
      ensures (Abs(), rc) == OnModify(parsers, old(Abs()), c, arg)
    {
      if action == NoAction {
        action := Modify;
      } else if !(action == Modify || action == Extract || action == Insert) {
        return 1;
      }
      if c == 'c' {
        comment := parsers.escapes(arg);
      }
      if c == 'm' {
        cmdFiles := cmdFiles + [arg];
      }
      if c == 'M' {
        cmdLines := cmdLines + [arg];
      }
      return 0;
    }

    /** `option`. */
    method Option(c: char, arg: string) returns (rc: nat)
      modifies this
      ensures (Abs(), rc) == OnOption(parsers, old(Abs()), c, arg)
    {
      var a := ActionOf(c);
      if a == Rename {
        rc := EvalRename(c, arg);
      } else if c == 'a' {
        rc := EvalAdjust(arg);
      } else if a == Adjust {
        rc := EvalYodAdjust(c, arg);
      } else if c == 'p' {
        rc := EvalPrint(arg);
      } else if c == 'P' {
        rc := EvalPrintFlags(arg);
      } else if a == Modify {
        rc := EvalModify(c, arg);
      } else if a == Erase || a == Extract || a == Insert {
        rc := EvalTargets(a, arg);
      } else {
        rc := Setting(c, arg);
      }
    }

    /** The options of `option` that have no handler of their own. */
    method Setting(c: char, arg: string) returns (rc: nat)
      modifies this
      ensures (Abs(), rc) == OnNeutral(parsers, old(Abs()), c, arg)
    {
      rc := 0;
      match c {
        case 'h' => help := true;
        case 'V' => version := true;
        case 'l' => directory := arg;
        case 'S' => suffix := arg;
        case 'Q' => rc := if LogLevelOk(arg) then 0 else 1;
        case 'g' => rc := if parsers.grep(arg) then 0 else 1;
        case _ => rc := if Neutral(c) then 0 else 1;
      }
    }

    /** `nonoption`. */
    method Nonoption(w: string) returns (rc: nat)
      modifies this
      ensures (Abs(), rc) == OnOperand(old(Abs()), w)
    {
      rc := 0;
      var named := NoAction;
      if first {
        first := false;
        named := Named(w);
        if named != NoAction {
          if !MayName(action, named) {
            rc := 1;
          }
          action := named;
        }
        if action == NoAction {
          action := Print;
        }
      }
      if named == NoAction {
        files := files + [w];
      }
    }

    /** Takes over the settings that the callbacks have made. */
    method Store(s: State)
      modifies this
      ensures Abs() == s
    {
      StoreSettings(s.settings, s.modifying);
      action, target, files, first := s.action, s.target, s.files, s.first;
      adjust, yod := s.adjusting.seconds, s.adjusting.yod;
      timestamp, timestampOnly := s.renaming.timestamp, s.renaming.timestampOnly;
      format, formatSet := s.renaming.format, s.renaming.formatSet;
    }

    method StoreSettings(s: Settings, m: Modifying)
      modifies this`comment, this`cmdFiles, this`cmdLines, this`directory, this`suffix, this`help, this`version
      ensures Settings(directory, suffix, help, version) == s && Modifying(comment, cmdFiles, cmdLines) == m
    {
      comment, cmdFiles, cmdLines := m.comment, m.cmdFiles, m.cmdLines;
      directory, suffix, help, version := s.directory, s.suffix, s.help, s.version;
    }

    /** Replaces long options. */
    method Shorten(argv: seq<string>) returns (words: seq<string>)
      ensures words == Shortened(longs, argv)
    {
      words := [];
      for i := 0 to |argv|
        invariant |words| == i && words == Shortened(longs, argv)[..i]
      {
        words := words + [Short(longs, argv[i])];
      }
    }

    /** The scan of all options and operands. */
    method Scan(words: seq<string>) returns (rc: nat)
      requires words != []
      modifies this
      ensures var o := Outcome(OptionHandler(parsers), Operands(), old(Abs()), words, optstring, "");
              if rc == 0 then o == Some(Abs()) else o == None
    {
      var scanner := new Scanner();
      var s;
      rc, s := scanner.Run(words, optstring, OptionHandler(parsers), Operands(), Abs());
      Store(s);
    }

    /** `Params::getopt`: all options, all operands, and the tests; `rc` is 0 for a command line to act on. */
    method GetOpt(argv: seq<string>) returns (rc: nat)
      requires argv != [] && Abs() == Initial()
      modifies this
      ensures var o := Outcome(OptionHandler(parsers), Operands(), Initial(), Shortened(longs, argv), optstring, "");
              && (rc == 0 <==> o.Some? && Accepted(parsers, o.value))
              && (rc == 0 ==> Abs() == o.value)
    {
      var words := Shorten(argv);
      rc := Scan(words);
      if help || version {
        return;
      }
      if !Consistent(parsers, Abs()) {
        rc := rc + 1;
      }
    }
  }
}
