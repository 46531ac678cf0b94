/** What a list of words tells the callbacks, word by word. */
module GetoptWords {
  import opened Basics
  import opened Getopt
  import opened GetoptScanner

  /** The option string has this letter, without a colon behind it. */
  predicate Plain(optstring: string, c: char) {
    c in optstring
    && forall i | 0 <= i < |optstring| && optstring[i] == c && c !in optstring[..i] ::
         i + 1 == |optstring| || optstring[i + 1] != ':'
  }

  /** It has this letter with a colon behind it. */
  predicate WithArgument(optstring: string, c: char) {
    exists i :: 0 <= i && i + 1 < |optstring| && optstring[i] == c && c !in optstring[..i] && optstring[i + 1] == ':'
  }

  lemma {:induction false} FindIs(s: string, c: char, i: nat)
    requires i <= |s| && c !in s[..i] && (i < |s| ==> s[i] == c)
    ensures Find(s, c) == i
    decreases i
  {
    if i > 0 {
      assert s[..i][0] == s[0] && s[..i][1..] == s[1..][..i - 1];
      FindIs(s[1..], c, i - 1);
    }
  }

  lemma {:induction false} FindFirst(s: string, c: char)
    ensures c !in s[..Find(s, c)] && (Find(s, c) < |s| <==> c in s)
  {
    if s != "" && s[0] != c {
      FindFirst(s[1..], c);
      var i := Find(s[1..], c);
      assert s[..i + 1] == [s[0]] + s[1..][..i];
    }
  }

  /** Which letters are options, and which of them take an argument. */
  lemma KnownIff(optstring: string, c: char)
    ensures Known(optstring, c) <==> c in optstring
    ensures TakesArg(optstring, c) <==> WithArgument(optstring, c)
    ensures Flag(optstring, c) <==> Plain(optstring, c)
  {
    var i := Find(optstring, c);
    FindFirst(optstring, c);
    forall j | 0 <= j < |optstring| && optstring[j] == c && c !in optstring[..j] ensures j == i {
      FindIs(optstring, c, j);
    }
  }

  /** A dash with a letter or a digit behind it. */
  predicate Dashed(w: string) {
    |w| >= 2 && w[0] == '-' && ('0' <= w[1] <= '9' || 'A' <= w[1] <= 'Z' || 'a' <= w[1] <= 'z')
  }

  /** No words tell nothing; a double dash is taken away, and what is behind it are operands. */
  lemma EndTold(optstring: string, words: seq<string>, last: string)
    ensures Told(optstring, [], last) == Some(([], []))
    ensures Told(optstring, ["--"] + words, last) == Some(([], words))
  {
    assert (["--"] + words)[1..] == words;
  }

  /** From the first word on that is no double dash and does not begin like an option, all words are operands. */
  lemma OperandsTold(optstring: string, words: seq<string>, last: string)
    requires words != [] && words[0] != "--" && !Dashed(words[0])
    ensures Told(optstring, words, last) == Some(([], words))
  {
  }

  lemma {:induction false} FlagsEndIs(optstring: string, w: string, k: nat, p: nat)
    requires k <= p <= |w| && (forall i | k <= i < p :: Plain(optstring, w[i]))
    requires p < |w| ==> !Plain(optstring, w[p])
    ensures FlagsEnd(optstring, w, k) == p
    decreases p - k
  {
    if k < |w| {
      KnownIff(optstring, w[k]);
    }
    if k < p {
      FlagsEndIs(optstring, w, k + 1, p);
    }
  }

  predicate AllPlain(optstring: string, flags: string) {
    forall i | 0 <= i < |flags| :: Plain(optstring, flags[i])
  }

  /** More options in front of what other words tell. */
  function Before(events: seq<Event>, rest: Option<(seq<Event>, seq<string>)>): Option<(seq<Event>, seq<string>)> {
    if rest.None? then None else Some((events + rest.value.0, rest.value.1))
  }

  /** These are the events of the flags, which bring along what was left of the last argument. */
  predicate FlagsAre(events: seq<Event>, flags: string, last: string) {
    |events| == |flags| && forall i | 0 <= i < |flags| :: events[i] == Event(flags[i], last)
  }

  lemma FirstTold(optstring: string, i: Item, words: seq<string>, rest: seq<string>, last: string, next: string,
                  flags: seq<Event>)
    requires Parse(optstring, words) == AddItem(i, Parse(optstring, rest)) && FlagsAre(flags, i.flags, last)
    requires next == if i.Cluster? then last else i.arg
    ensures Told(optstring, words, last)
         == Before(flags + (if i.Cluster? then [] else [Event(i.opt, i.arg)]), Told(optstring, rest, next))
  {
    FirstItemEvents(i, Parse(optstring, rest), last);
    assert FlagEvents(i.flags, last) == flags;
    assert EventsAhead(AddItem(i, Parse(optstring, rest)), last) == Told(optstring, words, last);
  }

  /** A word of flags. */
  lemma FlagsTold(optstring: string, flags: string, words: seq<string>, last: string, events: seq<Event>)
    requires Dashed("-" + flags) && AllPlain(optstring, flags) && FlagsAre(events, flags, last)
    ensures Told(optstring, ["-" + flags] + words, last) == Before(events, Told(optstring, words, last))
  {
    var w, all := "-" + flags, ["-" + flags] + words;
    assert all[0] == w && all[1..] == words && w[1..] == flags && w != "--";
    FlagsEndIs(optstring, w, 1, |w|);
    FirstTold(optstring, Cluster(flags), all, words, last, last, events);
    assert events + [] == events;
  }

  /** Flags, and an option with its argument in the same word. */
  lemma AttachedTold(optstring: string, flags: string, c: char, arg: string, words: seq<string>, last: string,
                     events: seq<Event>)
    requires Dashed("-" + flags + [c]) && AllPlain(optstring, flags) && FlagsAre(events, flags, last)
    requires WithArgument(optstring, c) && arg != ""
    ensures Told(optstring, ["-" + flags + [c] + arg] + words, last)
         == Before(events + [Event(c, arg)], Told(optstring, words, arg))
  {
    var w, p := "-" + flags + [c] + arg, 1 + |flags|;
    var all := [w] + words;
    WordIs(optstring, flags, c, arg, w, p);
    assert all[0] == w && all[1..] == words;
    FirstTold(optstring, Attached(flags, c, arg), all, words, last, arg, events);
  }

  lemma WordIs(optstring: string, flags: string, c: char, more: string, w: string, p: nat)
    requires Dashed("-" + flags + [c]) && AllPlain(optstring, flags) && !Plain(optstring, c)
    requires w == "-" + flags + [c] + more && p == 1 + |flags|
    ensures OptionLike(w) && w != "--" && p < |w| && w[p] == c && w[1..p] == flags && w[p + 1..] == more
    ensures FlagsEnd(optstring, w, 1) == p
    ensures Known(optstring, c) <==> c in optstring
  {
    assert w[1] == ("-" + flags + [c])[1];
    FlagsEndIs(optstring, w, 1, p);
    KnownIff(optstring, c);
  }

  lemma WithArgumentKnown(optstring: string, c: char)
    requires WithArgument(optstring, c)
    ensures c in optstring && !Plain(optstring, c)
  {
  }

  /** Flags, and an option with its argument in the next word. */
  lemma SeparateTold(optstring: string, flags: string, c: char, arg: string, words: seq<string>, last: string,
                     events: seq<Event>)
    requires Dashed("-" + flags + [c]) && AllPlain(optstring, flags) && FlagsAre(events, flags, last)
    requires WithArgument(optstring, c)
    ensures Told(optstring, ["-" + flags + [c], arg] + words, last)
         == Before(events + [Event(c, arg)], Told(optstring, words, arg))
  {
    var w, p := "-" + flags + [c], 1 + |flags|;
    var all := [w, arg] + words;
    WithArgumentKnown(optstring, c);
    assert w == w + "";
    WordIs(optstring, flags, c, "", w, p);
    assert all[0] == w && all[1] == arg && all[2..] == words;
    FirstTold(optstring, Separate(flags, c, arg), all, words, last, arg, events);
  }

  /** A letter that is no option, and an option without its argument, make the words unreadable. */
  lemma RefusedTold(optstring: string, flags: string, c: char, more: string, words: seq<string>, last: string)
    requires Dashed("-" + flags + [c]) && AllPlain(optstring, flags)
    requires c !in optstring || (WithArgument(optstring, c) && more == "" && words == [])
    ensures Told(optstring, ["-" + flags + [c] + more] + words, last).None?
  {
    var w, p := "-" + flags + [c] + more, 1 + |flags|;
    var all := [w] + words;
    WordIs(optstring, flags, c, more, w, p);
    assert all[0] == w;
  }

  /** A failed call reports a letter that is no option as `?`, and a missing argument as `:` if the option string begins
      with one, else as `?` too. */
  lemma FailureReported(argv: seq<string>, optstring: string, s: Scan)
    requires ScanOk(argv, s) && s.optind < |argv| && Dashed(argv[s.optind])
    ensures var w := argv[s.optind];
            var c := w[s.optpos];
            && (c !in optstring ==> Step(argv, optstring, s).1 == Some('?'))
            && (WithArgument(optstring, c) && s.optpos + 1 == |w| && s.optind + 1 == |argv| ==>
                  Step(argv, optstring, s).1 == Some(if optstring[0] == ':' then ':' else '?'))
  {
    KnownIff(optstring, argv[s.optind][s.optpos]);
  }
}
