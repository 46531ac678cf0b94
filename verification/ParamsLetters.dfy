/** Command lines letter by letter: which are accepted, what action they end in, and with which settings. */
module ParamsLetters {
  import opened Basics
  import opened Getopt
  import opened GetoptScanner
  import opened Params
  import opened ParamsRuns

  /** One of these options is given. */
  predicate Has(events: seq<Event>, letters: string) {
    exists i | 0 <= i < |events| :: events[i].opt in letters
  }

  /** The first operand is one of these words. */
  predicate Names(operands: seq<string>, words: set<string>) {
    operands != [] && operands[0] in words
  }

  // ---------- letters and words ----------

  lemma Letters(c: char)
    ensures ActionOf(c) == Adjust <==> c in "aYOD"
    ensures ActionOf(c) == Rename <==> c in "rtT"
    ensures ActionOf(c) == Print <==> c in "pP"
    ensures ActionOf(c) == Erase <==> c in "d"
    ensures ActionOf(c) == Extract <==> c in "eC"
    ensures ActionOf(c) == Insert <==> c in "i"
    ensures ActionOf(c) == Modify <==> c in "cmM"
    ensures ActionOf(c) != FixIso && ActionOf(c) != FixCom
  {
  }

  lemma HasLetters(events: seq<Event>)
    ensures HasAction(events, Adjust) <==> Has(events, "aYOD")
    ensures HasAction(events, Rename) <==> Has(events, "rtT")
    ensures HasAction(events, Print) <==> Has(events, "pP")
    ensures HasAction(events, Erase) <==> Has(events, "d")
    ensures HasAction(events, Extract) <==> Has(events, "eC")
    ensures HasAction(events, Insert) <==> Has(events, "i")
    ensures HasAction(events, Modify) <==> Has(events, "cmM")
    ensures !HasAction(events, FixIso) && !HasAction(events, FixCom)
  {
    forall i | 0 <= i < |events|
      ensures (ActionOf(events[i].opt) == Adjust <==> events[i].opt in "aYOD")
              && (ActionOf(events[i].opt) == Rename <==> events[i].opt in "rtT")
              && (ActionOf(events[i].opt) == Print <==> events[i].opt in "pP")
              && (ActionOf(events[i].opt) == Erase <==> events[i].opt in "d")
              && (ActionOf(events[i].opt) == Extract <==> events[i].opt in "eC")
              && (ActionOf(events[i].opt) == Insert <==> events[i].opt in "i")
              && (ActionOf(events[i].opt) == Modify <==> events[i].opt in "cmM")
              && ActionOf(events[i].opt) != FixIso && ActionOf(events[i].opt) != FixCom
    {
      Letters(events[i].opt);
    }
  }

  lemma Words(w: string)
    ensures Named(w) == Adjust <==> w in {"ad", "adjust"}
    ensures Named(w) == Print <==> w in {"pr", "print"}
    ensures Named(w) == Erase <==> w in {"rm", "delete"}
    ensures Named(w) == Extract <==> w in {"ex", "extract"}
    ensures Named(w) == Insert <==> w in {"in", "insert"}
    ensures Named(w) == Rename <==> w in {"mv", "rename"}
    ensures Named(w) == Modify <==> w in {"mo", "modify"}
    ensures Named(w) == FixIso <==> w in {"fi", "fixiso"}
    ensures Named(w) == FixCom <==> w in {"fc", "fixcom", "fixcomment"}
  {
  }

  // ---------- which options may stand together ----------

  /** Two options that must not stand together. */
  predicate Clash(a: Action, b: Action) {
    a != NoAction && b != NoAction && a != b
    && !(a == Modify && (b == Extract || b == Insert)) && !(b == Modify && (a == Extract || a == Insert))
  }

  lemma CompatibleActions(events: seq<Event>)
    ensures Compatible(events) <==> forall a, b | HasAction(events, a) && HasAction(events, b) :: !Clash(a, b)
  {
    if forall a, b | HasAction(events, a) && HasAction(events, b) :: !Clash(a, b) {
      forall i, j | 0 <= i < |events| && 0 <= j < |events|
        ensures Agree(ActionOf(events[i].opt), ActionOf(events[j].opt))
      {
        assert HasAction(events, ActionOf(events[i].opt)) && HasAction(events, ActionOf(events[j].opt));
      }
    }
  }

  lemma ActionTable(events: seq<Event>)
    ensures Compatible(events) <==>
              var mod := HasAction(events, Modify);
              var ins := HasAction(events, Insert);
              var ext := HasAction(events, Extract);
              var era := HasAction(events, Erase);
              var pri := HasAction(events, Print);
              var ren := HasAction(events, Rename);
              && !(HasAction(events, Adjust) && (ren || pri || era || ext || ins || mod))
              && !(ren && (pri || era || ext || ins || mod)) && !(pri && (era || ext || ins || mod))
              && !(era && (ext || ins || mod)) && !(ext && ins)
  {
    CompatibleActions(events);
    NeverFixed(events);
  }

  /** No option is for these two actions. */
  lemma NeverFixed(events: seq<Event>)
    ensures !HasAction(events, FixIso) && !HasAction(events, FixCom)
  {
  }

  lemma HasEither(events: seq<Event>, s: string, t: string, both: string)
    requires both == s + t
    ensures Has(events, both) <==> Has(events, s) || Has(events, t)
  {
    forall i | 0 <= i < |events|
      ensures events[i].opt in both <==> events[i].opt in s || events[i].opt in t
    {
    }
  }

  /** Two options agree unless they are of different ones of these groups; those that modify also agree with those that
      extract and insert. */
  lemma CompatibleIff(events: seq<Event>)
    ensures Compatible(events) <==>
              && !(Has(events, "aYOD") && Has(events, "rtTpPdeCicmM"))
              && !(Has(events, "rtT") && Has(events, "pPdeCicmM"))
              && !(Has(events, "pP") && Has(events, "deCicmM"))
              && !(Has(events, "d") && Has(events, "eCicmM"))
              && !(Has(events, "eC") && Has(events, "i"))
  {
    HasLetters(events);
    ActionTable(events);
    HasEither(events, "i", "cmM", "icmM");
    HasEither(events, "eC", "icmM", "eCicmM");
    HasEither(events, "d", "eCicmM", "deCicmM");
    HasEither(events, "pP", "deCicmM", "pPdeCicmM");
    HasEither(events, "rtT", "pPdeCicmM", "rtTpPdeCicmM");
  }

  // ---------- which arguments are read ----------

  lemma {:induction false} ArgsAny(events: seq<Event>, c: char)
    ensures Args(events, c) != [] <==> exists i :: 0 <= i < |events| && events[i].opt == c
  {
    if events != [] {
      var n := |events| - 1;
      ArgsAny(Init(events), c);
      assert forall i | 0 <= i < n :: Init(events)[i] == events[i];
      if events[n].opt == c {
        assert Args(events, c) != [];
      } else if i :| 0 <= i < |events| && events[i].opt == c {
        assert Init(events)[i].opt == c;
      }
    }
  }

  /** The letters that are options. */
  const ALL: string := "aYODrtTpPdeCicmMhVlSQgvqkbufFKn"

  /** The option can be read, given what came before it. */
  predicate ReadableAt(p: Parsers, before: seq<Event>, c: char, arg: string) {
    && c in ALL
    && (c == 'a' && !Has(before, "a") ==> p.time(arg).Some?)
    && (c == 'Y' && !Has(before, "Y") ==> p.number(arg).Some?)
    && (c == 'O' && !Has(before, "O") ==> p.number(arg).Some?)
    && (c == 'D' && !Has(before, "D") ==> p.number(arg).Some?)
    && (c == 'p' && !Has(before, "pP") ==>
          arg != "" && (arg[0] in "saetvhixcpCSX" || (arg[0] == 'R' && !p.release)))
    && (c == 'P' && !Has(before, "pP") ==> forall j | 0 <= j < |arg| :: arg[j] in "EIXxgklnycsvthVd")
    && (c == 'd' ==> p.targets(arg, Erase) != {}) && (c == 'i' ==> p.targets(arg, Insert) != {})
    && (c == 'e' || c == 'C' ==> p.targets(arg, Extract) != {})
    && (c == 'Q' ==> arg != "" && arg[0] in "dDiIwWeEmM") && (c == 'g' ==> p.grep(arg))
  }

  lemma HasOne(events: seq<Event>, c: char, letters: string)
    requires letters == [c]
    ensures Has(events, letters) <==> Args(events, c) != []
  {
    ArgsAny(events, c);
    if i :| 0 <= i < |events| && events[i].opt == c {
      assert events[i].opt in letters;
    }
  }

  lemma ReadableAtIff(p: Parsers, before: seq<Event>, c: char, arg: string)
    ensures ArgOk(p, before, c, arg) <==> ReadableAt(p, before, c, arg)
  {
    Letters(c);
    HasLetters(before);
    if ActionOf(c) == Adjust {
      HasOne(before, 'a', "a");
      HasOne(before, 'Y', "Y");
      HasOne(before, 'O', "O");
      HasOne(before, 'D', "D");
      AdjustReadable(p, before, c, arg);
    } else if ActionOf(c) == Print {
      PrintReadable(p, before, c, arg);
    } else if HasTargets(ActionOf(c)) {
      TargetReadable(p, before, c, arg);
    } else {
      OtherReadable(p, before, c, arg);
    }
  }

  lemma AdjustReadable(p: Parsers, before: seq<Event>, c: char, arg: string)
    requires c == 'a' || c == 'Y' || c == 'O' || c == 'D'
    requires Has(before, [c]) <==> Args(before, c) != []
    ensures ArgOk(p, before, c, arg) <==> ReadableAt(p, before, c, arg)
  {
    assert ActionOf(c) == Adjust;
  }

  lemma PrintReadable(p: Parsers, before: seq<Event>, c: char, arg: string)
    requires (c == 'p' || c == 'P') && (HasAction(before, Print) <==> Has(before, "pP"))
    ensures ArgOk(p, before, c, arg) <==> ReadableAt(p, before, c, arg)
  {
    assert ActionOf(c) == Print;
  }

  lemma TargetReadable(p: Parsers, before: seq<Event>, c: char, arg: string)
    requires c == 'd' || c == 'e' || c == 'C' || c == 'i'
    ensures ArgOk(p, before, c, arg) <==> ReadableAt(p, before, c, arg)
  {
    assert HasTargets(ActionOf(c));
  }

  lemma OtherReadable(p: Parsers, before: seq<Event>, c: char, arg: string)
    requires ActionOf(c) == NoAction || ActionOf(c) == Rename || ActionOf(c) == Modify
    ensures ArgOk(p, before, c, arg) <==> ReadableAt(p, before, c, arg)
  {
    Letters(c);
  }

  /** A list of options is accepted exactly when these groups are not mixed and each option can be read. */
  lemma AcceptedIff(p: Parsers, events: seq<Event>)
    ensures Accept(OptionHandler(p), Initial(), events).Some? <==>
              && !(Has(events, "aYOD") && Has(events, "rtTpPdeCicmM"))
              && !(Has(events, "rtT") && Has(events, "pPdeCicmM"))
              && !(Has(events, "pP") && Has(events, "deCicmM"))
              && !(Has(events, "d") && Has(events, "eCicmM"))
              && !(Has(events, "eC") && Has(events, "i"))
              && forall i | 0 <= i < |events| :: ReadableAt(p, events[..i], events[i].opt, events[i].arg)
  {
    OptionsAcceptedIff(p, events);
    CompatibleIff(events);
    forall i | 0 <= i < |events|
      ensures ArgOk(p, events[..i], events[i].opt, events[i].arg)
         <==> ReadableAt(p, events[..i], events[i].opt, events[i].arg)
    {
      ReadableAtIff(p, events[..i], events[i].opt, events[i].arg);
    }
  }

  // ---------- the action ----------

  /** The words that name an action. */
  const WORDS: set<string> := {"ad", "adjust", "pr", "print", "rm", "delete", "ex", "extract", "in", "insert", "mv",
    "rename", "mo", "modify", "fi", "fixiso", "fc", "fixcom", "fixcomment"}

  /** What an accepted command line does, told by the letters of its options and by its first operand: each action is
      taken exactly when an option for it is given or the operand names it; `-c`, `-m` and `-M` leave it to extract and
      insert if these are asked for, and operands without an action mean print. */
  lemma ActionIff(p: Parsers, events: seq<Event>, operands: seq<string>, t: State)
    requires Result(p, events, operands) == Some(t)
    ensures t.action == Adjust <==> Has(events, "aYOD") || Names(operands, {"ad", "adjust"})
    ensures t.action == Rename <==> Has(events, "rtT") || Names(operands, {"mv", "rename"})
    ensures t.action == Print <==>
              || Has(events, "pP") || Names(operands, {"pr", "print"})
              || (operands != [] && !Names(operands, WORDS) && !Has(events, "aYODrtTpPdeCicmM"))
    ensures t.action == Erase <==> Has(events, "d") || Names(operands, {"rm", "delete"})
    ensures t.action == Extract <==> Has(events, "eC") || Names(operands, {"ex", "extract"})
    ensures t.action == Insert <==> Has(events, "i") || Names(operands, {"in", "insert"})
    ensures t.action == Modify <==>
              || Names(operands, {"mo", "modify"})
              || (Has(events, "cmM") && !Has(events, "eCi") && !Names(operands, {"ex", "extract", "in", "insert"}))
    ensures t.action == FixIso <==> Names(operands, {"fi", "fixiso"})
    ensures t.action == FixCom <==> Names(operands, {"fc", "fixcom", "fixcomment"})
    ensures t.action == NoAction <==> operands == [] && !Has(events, "aYODrtTpPdeCicmM")
  {
    var a := ResultAction(p, events, operands, t);
    SettledLetters(events, a);
    if operands != [] {
      Words(operands[0]);
    }
  }

  /** The action that all options lead to, letter by letter. */
  lemma SettledLetters(events: seq<Event>, a: Action)
    requires Settled(events, a)
    ensures a == Adjust <==> Has(events, "aYOD")
    ensures a == Rename <==> Has(events, "rtT")
    ensures a == Print <==> Has(events, "pP")
    ensures a == Erase <==> Has(events, "d")
    ensures a == Extract <==> Has(events, "eC")
    ensures a == Insert <==> Has(events, "i")
    ensures a == Modify <==> Has(events, "cmM") && !Has(events, "eCi")
    ensures Has(events, "cmM") ==> a == Modify || a == Extract || a == Insert
    ensures a == NoAction <==> !Has(events, "aYODrtTpPdeCicmM")
    ensures a != FixIso && a != FixCom
  {
    HasLetters(events);
    HasAny(events);
    SettledHas(events, a, Adjust);
    SettledHas(events, a, Rename);
    SettledHas(events, a, Print);
    SettledHas(events, a, Erase);
    SettledHas(events, a, Extract);
    SettledHas(events, a, Insert);
    SettledHas(events, a, Modify);
  }

  lemma SettledHas(events: seq<Event>, a: Action, b: Action)
    requires Settled(events, a)
    ensures HasAction(events, b) ==> Follows(b, a)
    ensures a == b && a != NoAction ==> HasAction(events, b)
  {
  }

  lemma HasAny(events: seq<Event>)
    ensures Has(events, "aYODrtTpPdeCicmM") <==>
              || Has(events, "aYOD") || Has(events, "rtT") || Has(events, "pP") || Has(events, "d") || Has(events, "eC")
              || Has(events, "i") || Has(events, "cmM")
    ensures Has(events, "eCi") <==> Has(events, "eC") || Has(events, "i")
  {
    forall i | 0 <= i < |events|
      ensures events[i].opt in "aYODrtTpPdeCicmM" <==>
                || events[i].opt in "aYOD" || events[i].opt in "rtT" || events[i].opt in "pP" || events[i].opt in "d"
                || events[i].opt in "eC" || events[i].opt in "i" || events[i].opt in "cmM"
    {
    }
  }

  /** The action that all options lead to, which the first operand may replace. */
  lemma ResultAction(p: Parsers, events: seq<Event>, operands: seq<string>, t: State) returns (a: Action)
    requires Result(p, events, operands) == Some(t)
    ensures Settled(events, a)
    ensures t.action == if operands == [] then a
                        else if Named(operands[0]) != NoAction then Named(operands[0])
                        else if a == NoAction then Print else a
    ensures operands != [] && Named(operands[0]) != NoAction ==> Follows(a, Named(operands[0]))
  {
    OptionsAcceptedIff(p, events);
    var s := Accept(OptionHandler(p), Initial(), events).value;
    OperandsAre(s, operands);
    a := s.action;
  }

  // ---------- whole command lines ----------

  /** The words for each action, and the letters of the options that do not go with it. */
  predicate WordRow(words: set<string>, others: string, a: Action) {
    || (words == {"ad", "adjust"} && others == "rtTpPdeCicmM" && a == Adjust)
    || (words == {"mv", "rename"} && others == "aYODpPdeCicmM" && a == Rename)
    || (words == {"pr", "print"} && others == "aYODrtTdeCicmM" && a == Print)
    || (words == {"rm", "delete"} && others == "aYODrtTpPeCicmM" && a == Erase)
    || (words == {"ex", "extract"} && others == "aYODrtTpPdi" && a == Extract)
    || (words == {"in", "insert"} && others == "aYODrtTpPdeC" && a == Insert)
    || (words == {"mo", "modify"} && others == "aYODrtTpPdeCi" && a == Modify)
    || (words == {"fi", "fixiso"} && others == "aYODrtTpPdeCicmM" && a == FixIso)
    || (words == {"fc", "fixcom", "fixcomment"} && others == "aYODrtTpPdeCicmM" && a == FixCom)
  }

  /** All options are served by an action exactly when none of the others is given. */
  lemma FollowIff(events: seq<Event>, words: set<string>, others: string, a: Action)
    requires WordRow(words, others, a)
    ensures (forall i | 0 <= i < |events| :: Follows(ActionOf(events[i].opt), a)) <==> !Has(events, others)
  {
    forall i | 0 <= i < |events| ensures Follows(ActionOf(events[i].opt), a) <==> events[i].opt !in others {
      LetterFollows(events[i].opt, words, others, a);
    }
  }

  lemma LetterFollows(c: char, words: set<string>, others: string, a: Action)
    requires WordRow(words, others, a)
    ensures Follows(ActionOf(c), a) <==> c !in others
  {
    Letters(c);
  }

  lemma WordNamed(w: string, words: set<string>, others: string, a: Action)
    requires WordRow(words, others, a) && w in words
    ensures Named(w) == a
  {
    Words(w);
  }

  /** An action named by the first operand is taken if the options are accepted and none of the others is among them. */
  lemma NamedIff(p: Parsers, events: seq<Event>, operands: seq<string>, words: set<string>, others: string, a: Action)
    requires WordRow(words, others, a) && Names(operands, words)
    ensures var r := Result(p, events, operands);
            && (r.Some? <==> Accept(OptionHandler(p), Initial(), events).Some? && !Has(events, others))
            && (r.Some? ==> r.value.action == a && r.value.files == operands[1..])
  {
    OptionsAcceptedIff(p, events);
    ToldAcceptedIff(p, events, operands);
    WordNamed(operands[0], words, others, a);
    FollowIff(events, words, others, a);
    if Result(p, events, operands).Some? {
      ToldFinal(p, events, operands);
      var _ := ResultAction(p, events, operands, Result(p, events, operands).value);
    }
  }

  /** Without such a word the options decide. */
  lemma UnnamedIff(p: Parsers, events: seq<Event>, operands: seq<string>)
    requires !Names(operands, WORDS)
    ensures Result(p, events, operands).Some? <==> Accept(OptionHandler(p), Initial(), events).Some?
  {
    OptionsAcceptedIff(p, events);
    ToldAcceptedIff(p, events, operands);
    if operands != [] {
      Words(operands[0]);
    }
  }

  /** The files are the operands, but for an action named first. */
  lemma FilesAre(p: Parsers, events: seq<Event>, operands: seq<string>, t: State)
    requires Result(p, events, operands) == Some(t)
    ensures t.files == if Names(operands, WORDS) then operands[1..] else operands
  {
    ToldFinal(p, events, operands);
    if operands != [] {
      Words(operands[0]);
    }
  }

  lemma {:induction false} TargetsOfIff(p: Parsers, events: seq<Event>, a: Action, k: nat)
    ensures k in TargetsOf(p, events, a)
       <==> exists i :: 0 <= i < |events| && ActionOf(events[i].opt) == a && k in p.targets(events[i].arg, a)
  {
    if events != [] {
      var n := |events| - 1;
      TargetsOfIff(p, Init(events), a, k);
      assert forall i | 0 <= i < n :: Init(events)[i] == events[i];
      if i :| 0 <= i < n && ActionOf(events[i].opt) == a && k in p.targets(events[i].arg, a) {
        assert ActionOf(Init(events)[i].opt) == a && k in p.targets(Init(events)[i].arg, a);
      }
    }
  }

  /** The settings before the operands, and after them. */
  lemma ResultParts(p: Parsers, events: seq<Event>, operands: seq<string>, t: State) returns (s: State)
    requires Result(p, events, operands) == Some(t)
    ensures Explained(p, s, events) && AfterOperands(s, operands) == Some(t) && t.target == s.target
    ensures Compatible(events)
  {
    OptionsAcceptedIff(p, events);
    s := Accept(OptionHandler(p), Initial(), events).value;
    OperandsAre(s, operands);
  }

  predicate TargetRow(a: Action, letters: string) {
    (a == Erase && letters == "d") || (a == Extract && letters == "eC") || (a == Insert && letters == "i")
  }

  lemma TargetLetter(c: char, a: Action, letters: string)
    requires TargetRow(a, letters)
    ensures ActionOf(c) == a <==> c in letters
  {
    Letters(c);
  }

  /** The targets are those named by the options for deleting, extracting or inserting. */
  lemma TargetsAre(p: Parsers, events: seq<Event>, operands: seq<string>, t: State, a: Action, letters: string, k: nat)
    requires Result(p, events, operands) == Some(t) && TargetRow(a, letters) && Has(events, letters)
    ensures k in t.target <==>
              exists i :: 0 <= i < |events| && events[i].opt in letters && k in p.targets(events[i].arg, a)
  {
    var b := ResultTargets(p, events, operands, t);
    LetterSettles(events, a, letters, b);
    LetterTargets(p, events, a, letters, k);
  }

  /** The targets that the options lead to, with their action. */
  lemma ResultTargets(p: Parsers, events: seq<Event>, operands: seq<string>, t: State) returns (a: Action)
    requires Result(p, events, operands) == Some(t)
    ensures Settled(events, a) && TargetPart(p, a, t.target, events)
  {
    var s := ResultParts(p, events, operands, t);
    a := s.action;
  }

  lemma LetterSettles(events: seq<Event>, a: Action, letters: string, b: Action)
    requires TargetRow(a, letters) && Has(events, letters) && Settled(events, b)
    ensures a == b
  {
    var i :| 0 <= i < |events| && events[i].opt in letters;
    TargetLetter(events[i].opt, a, letters);
    assert Follows(ActionOf(events[i].opt), b);
  }

  /** Without any, they are all four kinds of metadata. */
  lemma TargetsDefault(p: Parsers, events: seq<Event>, operands: seq<string>, t: State)
    requires Result(p, events, operands) == Some(t) && !Has(events, "deCi")
    ensures t.target == {1, 2, 4, 16}
  {
    var a := ResultTargets(p, events, operands, t);
    NoTargetLetter(events, a);
  }

  lemma NoTargetLetter(events: seq<Event>, a: Action)
    requires Settled(events, a) && !Has(events, "deCi")
    ensures !HasTargets(a)
  {
    if HasTargets(a) {
      var i :| 0 <= i < |events| && ActionOf(events[i].opt) == a;
      Letters(events[i].opt);
    }
  }

  lemma LetterTargets(p: Parsers, events: seq<Event>, a: Action, letters: string, k: nat)
    requires TargetRow(a, letters)
    ensures k in TargetsOf(p, events, a) <==>
              exists i :: 0 <= i < |events| && events[i].opt in letters && k in p.targets(events[i].arg, a)
  {
    TargetsOfIff(p, events, a, k);
    forall i | 0 <= i < |events| ensures ActionOf(events[i].opt) == a <==> events[i].opt in letters {
      TargetLetter(events[i].opt, a, letters);
    }
  }

  /** Help and version need nothing more. Otherwise there must be a file, an adjustment or a modification where the
      action wants one, readable commands, and no directory or suffix for an action that has no use for it. */
  lemma TestsIff(p: Parsers, events: seq<Event>, operands: seq<string>, t: State)
    requires Result(p, events, operands) == Some(t)
    ensures Accepted(p, t) <==>
              || Args(events, 'h') != [] || Args(events, 'V') != []
              || (&& t.files != []
                  && (t.action == Adjust ==> Has(events, "aYOD"))
                  && (t.action == Modify ==>
                        || Args(events, 'm') != [] || Args(events, 'M') != []
                        || (Args(events, 'c') != [] && p.escapes(Last(Args(events, 'c'))) != ""))
                  && (Args(events, 'm') != [] ==> p.cmdFiles(Args(events, 'm')))
                  && (Args(events, 'M') != [] ==> p.cmdLines(Args(events, 'M')))
                  && (Args(events, 'l') != [] && Last(Args(events, 'l')) != "" ==>
                        t.action == Insert || t.action == Extract)
                  && (Args(events, 'S') != [] && Last(Args(events, 'S')) != "" ==> t.action == Insert))
  {
    var s := ResultParts(p, events, operands, t);
    ConsistentIff(p, events, operands, s, t);
    OperandsKeep(events, operands, s, t);
    HasAdjust(events);
  }

  lemma HasAdjust(events: seq<Event>)
    ensures HasAction(events, Adjust) <==> Has(events, "aYOD")
  {
    HasLetters(events);
  }

  /** The first option for renaming: `-r` sets the format, `-t` and `-T` each their flag, and leave the format. */
  lemma FirstRename(p: Parsers, s: State, c: char, arg: string)
    requires s.action == NoAction && (c == 'r' || c == 't' || c == 'T')
    ensures var (t, errors) := OnOption(p, s, c, arg);
            && errors == 0 && t.action == Rename
            && t.renaming.timestamp == (s.renaming.timestamp || c == 't')
            && t.renaming.timestampOnly == (s.renaming.timestampOnly || c == 'T')
            && t.renaming.format == (if c == 'r' then arg else s.renaming.format)
            && t.renaming.formatSet == (s.renaming.formatSet || c == 'r')
  {
  }

  /** A later one changes the format only: `-r` if neither a format nor `-T` was given before, `-t` and `-T` always, to
      whatever argument was left over. */
  lemma LaterRename(p: Parsers, s: State, c: char, arg: string)
    requires s.action == Rename && (c == 'r' || c == 't' || c == 'T')
    ensures var (t, errors) := OnOption(p, s, c, arg);
            && errors == 0 && t.action == Rename
            && t.renaming.timestamp == s.renaming.timestamp && t.renaming.timestampOnly == s.renaming.timestampOnly
            && t.renaming.format == (if c == 'r' && (s.renaming.formatSet || s.renaming.timestampOnly)
                                     then s.renaming.format else arg)
            && t.renaming.formatSet == (c != 'r' || !s.renaming.timestampOnly || s.renaming.formatSet)
  {
  }

  /** What the settings are without any options. */
  lemma Defaults()
    ensures Initial() == State(NoAction, Adjusting(None, map[]), Renaming(false, false, "%Y%m%d_%H%M%S", false),
                               Modifying("", [], []), Settings("", "", false, false), {1, 2, 4, 16}, [], true)
  {
  }

  /** Long options, and only they, are replaced, each by its own letter. */
  lemma ShortenedIs(longs: map<string, string>, words: seq<string>, i: nat)
    requires i < |words|
    ensures words[i] in longs ==> Shortened(longs, words)[i] == longs[words[i]]
    ensures words[i] !in longs ==> Shortened(longs, words)[i] == words[i]
  {
  }
}
