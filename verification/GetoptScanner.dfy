/** The scanner state machine, and the loop that hands each option to a callback. */
module GetoptScanner {
  import opened Basics
  import opened Getopt

  /** The variables of the scanner. */
  datatype Scan = Scan(optind: nat, optpos: nat, optarg: string, optopt: char)

  /** The scanner stands at a word, perhaps inside a cluster. */
  predicate ScanOk(argv: seq<string>, s: Scan) {
    && 1 <= s.optind <= |argv| && s.optpos >= 1
    && (s.optpos > 1 ==> s.optind < |argv| && OptionLike(argv[s.optind]) && s.optpos < |argv[s.optind]|)
  }

  /** An unknown letter is reported as `?`; a missing argument as `:` if the option string asks for that. */
  function Missing(optstring: string): char {
    if optstring != [] && optstring[0] == ':' then ':' else '?'
  }

  /** One call of the scanner: the letter it returns, or nothing at the end. */
  function Step(argv: seq<string>, optstring: string, s: Scan): (r: (Scan, Option<char>))
    requires ScanOk(argv, s)
    ensures ScanOk(argv, r.0)
  {
    if s.optind == |argv| then (s, None)
    else
      var w := argv[s.optind];
      if w == "--" then (s.(optind := s.optind + 1), None)
      else if !OptionLike(w) then (s, None)
      else
        var c := w[s.optpos];
        var t := s.(optopt := c);
        if !Known(optstring, c) then (t, Some('?'))
        else if TakesArg(optstring, c) then
          if s.optpos + 1 < |w| then
            (t.(optarg := w[s.optpos + 1..], optind := s.optind + 1, optpos := 1), Some(c))
          else if s.optind + 1 < |argv| then
            (t.(optarg := argv[s.optind + 1], optind := s.optind + 2, optpos := 1), Some(c))
          else (t, Some(Missing(optstring)))
        else if s.optpos + 1 < |w| then (t.(optpos := s.optpos + 1), Some(c))
        else (t.(optind := s.optind + 1, optpos := 1), Some(c))
  }

  /** The line that is still to be read. */
  function Ahead(argv: seq<string>, optstring: string, s: Scan): Option<Line>
    requires ScanOk(argv, s)
  {
    ParseAt(optstring, argv[s.optind..], s.optpos)
  }

  /** The scanner found no option, or an option without its argument. */
  predicate Fails(argv: seq<string>, optstring: string, s: Scan)
    requires ScanOk(argv, s)
  {
    && s.optind < |argv| && argv[s.optind] != "--" && OptionLike(argv[s.optind])
    && var w := argv[s.optind];
       || !Known(optstring, w[s.optpos])
       || (TakesArg(optstring, w[s.optpos]) && s.optpos + 1 == |w| && s.optind + 1 == |argv|)
  }

  // ---------- one call against the line that is ahead ----------

  /** At the end of the options, the operands are what is left. */
  lemma StepEnds(argv: seq<string>, optstring: string, s: Scan)
    requires ScanOk(argv, s) && Step(argv, optstring, s).1.None?
    ensures Ahead(argv, optstring, s).Some?
    ensures var l := Ahead(argv, optstring, s).value;
            l.items == [] && l.operands == argv[Step(argv, optstring, s).0.optind..]
  {
  }

  /** A failed call does not move on, and there is no line to read. */
  lemma StepFails(argv: seq<string>, optstring: string, s: Scan)
    requires ScanOk(argv, s) && Fails(argv, optstring, s)
    ensures var (t, c) := Step(argv, optstring, s);
            && t.optind == s.optind && t.optpos == s.optpos && t.optarg == s.optarg
            && (c == Some('?') || c == Some(':'))
    ensures Ahead(argv, optstring, s).None?
  {
  }

  /** The events ahead. */
  function EventsAhead(l: Option<Line>, last: string): Option<(seq<Event>, seq<string>)> {
    if l.Some? then Some((Events(l.value.items, last), l.value.operands)) else None
  }

  function Prepend(e: Event, rest: Option<(seq<Event>, seq<string>)>): Option<(seq<Event>, seq<string>)> {
    if rest.Some? then Some(([e] + rest.value.0, rest.value.1)) else None
  }

  lemma FirstItemEvents(i: Item, rest: Option<Line>, last: string)
    ensures EventsAhead(AddItem(i, rest), last)
         == if rest.Some?
            then Some((ItemEvents(i, last) + Events(rest.value.items, LastArg(i, last)), rest.value.operands))
            else None
  {
  }

  /** The same item with one more flag in front. */
  function MoreFlags(f: char, i: Item): Item {
    match i
    case Cluster(flags) => Cluster([f] + flags)
    case Attached(flags, opt, arg) => Attached([f] + flags, opt, arg)
    case Separate(flags, opt, arg) => Separate([f] + flags, opt, arg)
  }

  lemma MoreFlagsEvents(f: char, i: Item, rest: Option<Line>, last: string)
    ensures EventsAhead(AddItem(MoreFlags(f, i), rest), last)
         == Prepend(Event(f, last), EventsAhead(AddItem(i, rest), last))
  {
    FirstItemEvents(i, rest, last);
    FirstItemEvents(MoreFlags(f, i), rest, last);
    assert FlagEvents([f] + i.flags, last) == [Event(f, last)] + FlagEvents(i.flags, last);
    if rest.Some? {
      var tail := Events(rest.value.items, LastArg(i, last));
      assert ([Event(f, last)] + ItemEvents(i, last)) + tail == [Event(f, last)] + (ItemEvents(i, last) + tail);
      assert ItemEvents(MoreFlags(f, i), last) == [Event(f, last)] + ItemEvents(i, last);
    }
  }

  /** Inside a word, a flag goes before what the rest of the word says. */
  lemma FlagInWord(optstring: string, words: seq<string>, k: nat, last: string)
    requires words != [] && words[0] != "--" && OptionLike(words[0]) && 1 <= k && k + 1 < |words[0]|
    requires Flag(optstring, words[0][k])
    ensures EventsAhead(ParseAt(optstring, words, k), last)
         == Prepend(Event(words[0][k], last), EventsAhead(ParseAt(optstring, words, k + 1), last))
  {
    var w := words[0];
    var p := FlagsEnd(optstring, w, k);
    assert p == FlagsEnd(optstring, w, k + 1);
    if p == |w| {
      assert w[k..] == [w[k]] + w[k + 1..];
      MoreFlagsEvents(w[k], Cluster(w[k + 1..]), ParseAt(optstring, words[1..], 1), last);
    } else if Known(optstring, w[p]) {
      FlagBeforeOption(optstring, words, k, p, last);
    }
  }

  lemma FlagBeforeOption(optstring: string, words: seq<string>, k: nat, p: nat, last: string)
    requires words != [] && words[0] != "--" && OptionLike(words[0]) && 1 <= k < p < |words[0]|
    requires p == FlagsEnd(optstring, words[0], k) == FlagsEnd(optstring, words[0], k + 1)
    requires Known(optstring, words[0][p])
    ensures EventsAhead(ParseAt(optstring, words, k), last)
         == Prepend(Event(words[0][k], last), EventsAhead(ParseAt(optstring, words, k + 1), last))
  {
    var w := words[0];
    assert w[k..p] == [w[k]] + w[k + 1..p];
    if p + 1 < |w| {
      var i, rest := Attached(w[k + 1..p], w[p], w[p + 1..]), ParseAt(optstring, words[1..], 1);
      assert ParseAt(optstring, words, k) == AddItem(MoreFlags(w[k], i), rest);
      assert ParseAt(optstring, words, k + 1) == AddItem(i, rest);
      MoreFlagsEvents(w[k], i, rest, last);
    } else if |words| > 1 {
      var i, rest := Separate(w[k + 1..p], w[p], words[1]), ParseAt(optstring, words[2..], 1);
      assert ParseAt(optstring, words, k) == AddItem(MoreFlags(w[k], i), rest);
      assert ParseAt(optstring, words, k + 1) == AddItem(i, rest);
      MoreFlagsEvents(w[k], i, rest, last);
    }
  }

  /** The last flag of a word. */
  lemma FlagEndsWord(optstring: string, words: seq<string>, k: nat, last: string)
    requires words != [] && words[0] != "--" && OptionLike(words[0]) && 1 <= k && k + 1 == |words[0]|
    requires Flag(optstring, words[0][k])
    ensures EventsAhead(ParseAt(optstring, words, k), last)
         == Prepend(Event(words[0][k], last), EventsAhead(ParseAt(optstring, words[1..], 1), last))
  {
    var w, rest := words[0], ParseAt(optstring, words[1..], 1);
    assert FlagsEnd(optstring, w, k) == |w|;
    assert w[k..] == [w[k]];
    FirstItemEvents(Cluster([w[k]]), rest, last);
    assert ItemEvents(Cluster([w[k]]), last) == [Event(w[k], last)];
  }

  /** An option without flags before it. */
  lemma LoneOption(i: Item, rest: Option<Line>, last: string)
    requires !i.Cluster? && i.flags == []
    ensures EventsAhead(AddItem(i, rest), last) == Prepend(Event(i.opt, i.arg), EventsAhead(rest, i.arg))
  {
    FirstItemEvents(i, rest, last);
    assert ItemEvents(i, last) == [Event(i.opt, i.arg)];
  }

  /** An option with its argument in the same word. */
  lemma OptionInWord(optstring: string, words: seq<string>, k: nat, last: string, arg: string)
    requires words != [] && words[0] != "--" && OptionLike(words[0]) && 1 <= k && k + 1 < |words[0]|
    requires Known(optstring, words[0][k]) && TakesArg(optstring, words[0][k]) && arg == words[0][k + 1..]
    ensures EventsAhead(ParseAt(optstring, words, k), last)
         == Prepend(Event(words[0][k], arg), EventsAhead(ParseAt(optstring, words[1..], 1), arg))
  {
    assert FlagsEnd(optstring, words[0], k) == k;
    var i, rest := Attached([], words[0][k], arg), ParseAt(optstring, words[1..], 1);
    assert words[0][k..k] == [];
    assert ParseAt(optstring, words, k) == AddItem(i, rest);
    LoneOption(i, rest, last);
  }

  /** An option with its argument in the next word. */
  lemma OptionBeforeWord(optstring: string, words: seq<string>, k: nat, last: string, arg: string)
    requires |words| > 1 && words[0] != "--" && OptionLike(words[0]) && 1 <= k && k + 1 == |words[0]|
    requires Known(optstring, words[0][k]) && TakesArg(optstring, words[0][k]) && arg == words[1]
    ensures EventsAhead(ParseAt(optstring, words, k), last)
         == Prepend(Event(words[0][k], arg), EventsAhead(ParseAt(optstring, words[2..], 1), arg))
  {
    assert FlagsEnd(optstring, words[0], k) == k;
    var i, rest := Separate([], words[0][k], arg), ParseAt(optstring, words[2..], 1);
    assert words[0][k..k] == [];
    assert ParseAt(optstring, words, k) == AddItem(i, rest);
    LoneOption(i, rest, last);
  }

  /** The events ahead of a call that returns an option begin with that option. */
  ghost predicate Returns(argv: seq<string>, optstring: string, s: Scan)
    requires ScanOk(argv, s)
  {
    var (t, c) := Step(argv, optstring, s);
    && c.Some?
    && EventsAhead(Ahead(argv, optstring, s), s.optarg)
       == Prepend(Event(c.value, t.optarg), EventsAhead(Ahead(argv, optstring, t), t.optarg))
  }

  /** The argument is in the same word. */
  lemma OptionInWordReturned(argv: seq<string>, optstring: string, s: Scan)
    requires ScanOk(argv, s) && Step(argv, optstring, s).1.Some? && !Fails(argv, optstring, s)
    requires TakesArg(optstring, argv[s.optind][s.optpos]) && s.optpos + 1 < |argv[s.optind]|
    ensures Returns(argv, optstring, s)
  {
    var words, w, k := argv[s.optind..], argv[s.optind], s.optpos;
    var (t, c) := Step(argv, optstring, s);
    assert c == Some(w[k]) && t.optarg == w[k + 1..] && t.optpos == 1;
    assert argv[t.optind..] == words[1..];
    OptionInWord(optstring, words, k, s.optarg, w[k + 1..]);
  }

  /** The argument is the next word. */
  lemma OptionBeforeWordReturned(argv: seq<string>, optstring: string, s: Scan)
    requires ScanOk(argv, s) && Step(argv, optstring, s).1.Some? && !Fails(argv, optstring, s)
    requires TakesArg(optstring, argv[s.optind][s.optpos]) && s.optpos + 1 == |argv[s.optind]|
    ensures Returns(argv, optstring, s)
  {
    var words, w, k := argv[s.optind..], argv[s.optind], s.optpos;
    var (t, c) := Step(argv, optstring, s);
    assert c == Some(w[k]) && t.optarg == words[1] && t.optpos == 1;
    assert argv[t.optind..] == words[2..];
    OptionBeforeWord(optstring, words, k, s.optarg, words[1]);
  }

  lemma FlagReturned(argv: seq<string>, optstring: string, s: Scan)
    requires ScanOk(argv, s) && Step(argv, optstring, s).1.Some? && !Fails(argv, optstring, s)
    requires !TakesArg(optstring, argv[s.optind][s.optpos]) && s.optpos + 1 < |argv[s.optind]|
    ensures Returns(argv, optstring, s)
  {
    var words, w, k := argv[s.optind..], argv[s.optind], s.optpos;
    var (t, c) := Step(argv, optstring, s);
    assert c == Some(w[k]) && t == s.(optopt := w[k], optpos := k + 1);
    FlagInWord(optstring, words, k, s.optarg);
  }

  lemma LastFlagReturned(argv: seq<string>, optstring: string, s: Scan)
    requires ScanOk(argv, s) && Step(argv, optstring, s).1.Some? && !Fails(argv, optstring, s)
    requires !TakesArg(optstring, argv[s.optind][s.optpos]) && s.optpos + 1 == |argv[s.optind]|
    ensures Returns(argv, optstring, s)
  {
    var words, w, k := argv[s.optind..], argv[s.optind], s.optpos;
    var (t, c) := Step(argv, optstring, s);
    assert c == Some(w[k]) && t == s.(optopt := w[k], optind := s.optind + 1, optpos := 1);
    assert argv[t.optind..] == words[1..];
    FlagEndsWord(optstring, words, k, s.optarg);
  }

  /** A call that returns an option moves on by that option: first in the words, then in the word. */
  lemma StepMoves(argv: seq<string>, optstring: string, s: Scan)
    requires ScanOk(argv, s) && Step(argv, optstring, s).1.Some? && !Fails(argv, optstring, s)
    ensures var (t, c) := Step(argv, optstring, s);
            && (t.optind > s.optind || (t.optind == s.optind && t.optpos > s.optpos))
            && EventsAhead(Ahead(argv, optstring, s), s.optarg)
               == Prepend(Event(c.value, t.optarg), EventsAhead(Ahead(argv, optstring, t), t.optarg))
  {
    if TakesArg(optstring, argv[s.optind][s.optpos]) {
      if s.optpos + 1 < |argv[s.optind]| {
        OptionInWordReturned(argv, optstring, s);
      } else {
        OptionBeforeWordReturned(argv, optstring, s);
      }
    } else if s.optpos + 1 < |argv[s.optind]| {
      FlagReturned(argv, optstring, s);
    } else {
      LastFlagReturned(argv, optstring, s);
    }
  }

  // ---------- a callback that does not report a missing argument ----------

  function Steps(argv: seq<string>, optstring: string, s: Scan, n: nat): (t: Scan)
    requires ScanOk(argv, s)
    ensures ScanOk(argv, t)
  {
    if n == 0 then s else Step(argv, optstring, Steps(argv, optstring, s, n - 1)).0
  }

  /** From a failed call on, every further call fails the same way: a loop that goes on there never ends. */
  lemma {:induction false} FailsForever(argv: seq<string>, optstring: string, s: Scan, n: nat)
    requires ScanOk(argv, s) && Fails(argv, optstring, s)
    ensures var t := Steps(argv, optstring, s, n);
            && t.optind == s.optind && t.optpos == s.optpos && Fails(argv, optstring, t)
            && Step(argv, optstring, t).1 == Step(argv, optstring, s).1
  {
    if n > 0 {
      FailsForever(argv, optstring, s, n - 1);
      StepFails(argv, optstring, Steps(argv, optstring, s, n - 1));
    }
  }

  // ---------- the callbacks ----------

  /** The callback `option`: from a state, the letter, the argument and `optopt` to a state and an error count. */
  type Handler<!H> = (H, char, string, char) -> (H, nat)

  type OperandHandler<!H> = (H, string) -> (H, nat)

  /** The callback counts an error for an unknown option and for a missing argument. */
  ghost predicate Reports<H(!new)>(handler: Handler<H>) {
    forall h, arg, opt :: handler(h, '?', arg, opt).1 > 0 && handler(h, ':', arg, opt).1 > 0
  }

  /** The state after all events, if the callback accepts each of them. */
  function Accept<H>(handler: Handler<H>, h: H, events: seq<Event>): Option<H>
    decreases |events|
  {
    if events == [] then Some(h)
    else
      var (next, errors) := handler(h, events[0].opt, events[0].arg, events[0].opt);
      if errors > 0 then None else Accept(handler, next, events[1..])
  }

  function AcceptOperands<H>(handler: OperandHandler<H>, h: H, operands: seq<string>): Option<H>
    decreases |operands|
  {
    if operands == [] then Some(h)
    else
      var (next, errors) := handler(h, operands[0]);
      if errors > 0 then None else AcceptOperands(handler, next, operands[1..])
  }

  /** What the options ahead lead to, and the operands behind them. */
  function Verdict<H>(handler: Handler<H>, h: H, l: Option<(seq<Event>, seq<string>)>): Option<(H, seq<string>)> {
    if l.None? then None
    else
      var after := Accept(handler, h, l.value.0);
      if after.None? then None else Some((after.value, l.value.1))
  }

  lemma VerdictMoves<H>(handler: Handler<H>, h: H, e: Event, rest: Option<(seq<Event>, seq<string>)>)
    ensures var (next, errors) := handler(h, e.opt, e.arg, e.opt);
            Verdict(handler, h, Prepend(e, rest)) == if errors > 0 then None else Verdict(handler, next, rest)
  {
  }

  /** One turn of the loop: a call of the scanner and of the callback. */
  lemma Turn<H(!new)>(argv: seq<string>, optstring: string, s: Scan, handler: Handler<H>, h: H)
    requires Reports(handler) && ScanOk(argv, s) && Step(argv, optstring, s).1.Some?
    ensures var (t, c) := Step(argv, optstring, s);
            var (next, errors) := handler(h, c.value, t.optarg, t.optopt);
            && Verdict(handler, h, EventsAhead(Ahead(argv, optstring, s), s.optarg))
               == (if errors > 0 then None
                    else Verdict(handler, next, EventsAhead(Ahead(argv, optstring, t), t.optarg)))
            && (errors == 0 ==> t.optind > s.optind || (t.optind == s.optind && t.optpos > s.optpos))
            && (c == Some('?') ==> errors > 0)
  {
    var (t, c) := Step(argv, optstring, s);
    if Fails(argv, optstring, s) {
      StepFails(argv, optstring, s);
    } else {
      StepMoves(argv, optstring, s);
      VerdictMoves(handler, h, Event(c.value, t.optarg), EventsAhead(Ahead(argv, optstring, t), t.optarg));
    }
  }

  /** The whole run, as the words say: the state at the end if nothing is wrong with them. */
  function Outcome<H>(handler: Handler<H>, operand: OperandHandler<H>, h: H, argv: seq<string>, optstring: string,
                      last: string): Option<H>
    requires argv != []
  {
    var v := Verdict(handler, h, Told(optstring, argv[1..], last));
    if v.None? then None else AcceptOperands(operand, v.value.0, v.value.1)
  }

  class Scanner {
    var optind: nat
    var optpos: nat
    var optarg: string
    var optopt: char

    function Abs(): Scan
      reads this
    {
      Scan(optind, optpos, optarg, optopt)
    }

    /** Where the next call starts: an `optind` of 0 means the first word. */
    function Current(): Scan
      reads this
    {
      if optind == 0 then Scan(1, 1, optarg, optopt) else Abs()
    }

    constructor ()
      ensures optind == 0 && optarg == ""
    {
      optind, optpos, optarg, optopt := 0, 1, "", '?';
    }

    /** `Util::getopt`. Setting `optind` to 0 starts afresh. */
    method Next(argv: seq<string>, optstring: string) returns (c: Option<char>)
      requires argv != [] && ScanOk(argv, Current())
      modifies this
      ensures ScanOk(argv, Abs())
      ensures (Abs(), c) == Step(argv, optstring, old(Current()))
    {
      if optind == 0 {
        optind, optpos := 1, 1;
      }
      if optind < |argv| && argv[optind] == "--" {
        optind := optind + 1;
        return None;
      }
      if optind == |argv| || !OptionLike(argv[optind]) {
        return None;
      }
      var w := argv[optind];
      optopt := w[optpos];
      if !Known(optstring, optopt) {
        return Some('?');
      }
      if TakesArg(optstring, optopt) {
        if optpos + 1 < |w| {
          optarg, optind, optpos := w[optpos + 1..], optind + 1, 1;
          return Some(optopt);
        }
        if optind + 1 < |argv| {
          optarg, optind, optpos := argv[optind + 1], optind + 2, 1;
          return Some(optopt);
        }
        return Some(Missing(optstring));
      }
      optpos := optpos + 1;
      if optpos == |w| {
        optind, optpos := optind + 1, 1;
      }
      return Some(optopt);
    }

    /** The loop over the options. */
    method ScanOptions<H(!new)>(argv: seq<string>, optstring: string, handler: Handler<H>, h0: H)
      returns (errors: nat, h: H)
      requires argv != [] && Reports(handler)
      modifies this
      ensures 1 <= optind <= |argv|
      ensures var v := Verdict(handler, h0, Told(optstring, argv[1..], old(optarg)));
              if errors == 0 then v == Some((h, argv[optind..])) else v == None
    {
      optind := 0;
      h, errors := h0, 0;
      ghost var wanted := Verdict(handler, h0, Told(optstring, argv[1..], optarg));
      while errors == 0
        invariant ScanOk(argv, Current()) && (optind == 0 ==> errors == 0)
        invariant errors == 0 ==> wanted == Verdict(handler, h, EventsAhead(Ahead(argv, optstring, Current()), optarg))
        invariant errors > 0 ==> wanted == None
        decreases errors == 0, |argv| - Current().optind,
                  if Current().optind < |argv| then |argv[Current().optind]| - Current().optpos else 0
      {
        ghost var s := Current();
        var c := Next(argv, optstring);
        if c == None {
          StepEnds(argv, optstring, s);
          return;
        }
        Turn(argv, optstring, s, handler, h);
        var told := handler(h, c.value, optarg, optopt);
        h, errors := told.0, told.1;
        if c == Some('?') {
          return;
        }
      }
    }

    /** `Getopt::getopt`: the options, then every word behind them as an operand. */
    method Run<H(!new)>(argv: seq<string>, optstring: string, handler: Handler<H>, operand: OperandHandler<H>, h0: H)
      returns (errors: nat, h: H)
      requires argv != [] && Reports(handler)
      modifies this
      ensures var o := Outcome(handler, operand, h0, argv, optstring, old(optarg));
              if errors == 0 then o == Some(h) else o == None
    {
      errors, h := ScanOptions(argv, optstring, handler, h0);
      ghost var wanted := AcceptOperands(operand, h, argv[optind..]);
      ghost var scanned := errors;
      for i := optind to |argv|
        invariant optind <= |argv| && errors >= scanned
        invariant errors == 0 ==> wanted == AcceptOperands(operand, h, argv[i..])
        invariant errors > 0 && scanned == 0 ==> wanted == None
      {
        assert argv[i..][1..] == argv[i + 1..];
        var told := operand(h, argv[i]);
        h, errors := told.0, errors + told.1;
      }
    }
  }
}
