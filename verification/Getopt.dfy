/** The option scanner `Util::getopt`, the callback loop around it, and the command lines they accept. */
module Getopt {
  import opened Basics

  // ---------- command lines ----------

  /** `strchr`: where the character first stands, or the length of the string. */
  function Find(s: string, c: char): (i: nat)
    ensures i <= |s| && (i < |s| ==> s[i] == c)
    ensures c in s ==> i < |s|
  {
    if s == "" || s[0] == c then 0 else 1 + Find(s[1..], c)
  }

  predicate Known(optstring: string, c: char) {
    Find(optstring, c) < |optstring|
  }

  /** An option that needs an argument: its letter is followed by a colon. */
  predicate TakesArg(optstring: string, c: char) {
    var i := Find(optstring, c);
    i + 1 < |optstring| && optstring[i + 1] == ':'
  }

  predicate Flag(optstring: string, c: char) {
    Known(optstring, c) && !TakesArg(optstring, c)
  }

  predicate IsAlnum(c: char) {
    '0' <= c <= '9' || 'A' <= c <= 'Z' || 'a' <= c <= 'z'
  }

  /** A word that the scanner looks for options in. */
  predicate OptionLike(w: string) {
    |w| >= 2 && w[0] == '-' && IsAlnum(w[1])
  }

  /** What one or two words of a command line mean: guideline 5 of XBD section 12.2 of POSIX.1-2017. */
  datatype Item =
    | Cluster(flags: string)                           // -abc
    | Attached(flags: string, opt: char, arg: string)  // -aboARG
    | Separate(flags: string, opt: char, arg: string)  // -abo ARG

  /** Options, perhaps the terminator `--` (guideline 10), and operands. */
  datatype Line = Line(items: seq<Item>, terminated: bool, operands: seq<string>)

  function ItemWords(i: Item): seq<string> {
    match i
    case Cluster(flags) => ["-" + flags]
    case Attached(flags, opt, arg) => ["-" + flags + [opt] + arg]
    case Separate(flags, opt, arg) => ["-" + flags + [opt], arg]
  }

  function ItemsWords(items: seq<Item>): seq<string> {
    if items == [] then [] else ItemWords(items[0]) + ItemsWords(items[1..])
  }

  /** The words of a command line. */
  function Unparse(l: Line): seq<string> {
    ItemsWords(l.items) + (if l.terminated then ["--"] else []) + l.operands
  }

  predicate AllFlags(optstring: string, s: string) {
    forall i | 0 <= i < |s| :: Flag(optstring, s[i])
  }

  /** The letters exist, each in its role, and the word starts as an option word must. */
  predicate GoodItem(optstring: string, i: Item) {
    && AllFlags(optstring, i.flags)
    && match i
       case Cluster(flags) => flags != [] && IsAlnum(flags[0])
       case Attached(flags, opt, arg) =>
         Known(optstring, opt) && TakesArg(optstring, opt) && IsAlnum((flags + [opt])[0]) && arg != []
       case Separate(flags, opt, arg) =>
         Known(optstring, opt) && TakesArg(optstring, opt) && IsAlnum((flags + [opt])[0])
  }

  predicate GoodLine(optstring: string, l: Line) {
    && (forall i | 0 <= i < |l.items| :: GoodItem(optstring, l.items[i]))
    && (l.terminated || l.operands == [] || (l.operands[0] != "--" && !OptionLike(l.operands[0])))
  }

  // ---------- reading a command line ----------

  /** From `k` on, where the flags of a word end. */
  function FlagsEnd(optstring: string, w: string, k: nat): (p: nat)
    requires k <= |w|
    ensures k <= p <= |w| && (p < |w| ==> !Flag(optstring, w[p]))
    ensures AllFlags(optstring, w[k..p])
    decreases |w| - k
  {
    if k < |w| && Flag(optstring, w[k]) then
      var p := FlagsEnd(optstring, w, k + 1);
      assert w[k..p] == [w[k]] + w[k + 1..p];
      p
    else k
  }

  function AddItem(i: Item, rest: Option<Line>): Option<Line> {
    if rest.Some? then Some(rest.value.(items := [i] + rest.value.items)) else None
  }

  /** The command line in `words`, where the first word has been read up to its character `k`. */
  function ParseAt(optstring: string, words: seq<string>, k: nat): (l: Option<Line>)
    requires k >= 1 && (k > 1 ==> words != [] && OptionLike(words[0]) && k < |words[0]|)
    decreases |words|
  {
    if words == [] then Some(Line([], false, []))
    else if words[0] == "--" then Some(Line([], true, words[1..]))
    else if !OptionLike(words[0]) then Some(Line([], false, words))
    else
      var w := words[0];
      var p := FlagsEnd(optstring, w, k);
      if p == |w| then AddItem(Cluster(w[k..]), ParseAt(optstring, words[1..], 1))
      else if !Known(optstring, w[p]) then None
      else if p + 1 < |w| then AddItem(Attached(w[k..p], w[p], w[p + 1..]), ParseAt(optstring, words[1..], 1))
      else if |words| > 1 then AddItem(Separate(w[k..p], w[p], words[1]), ParseAt(optstring, words[2..], 1))
      else None
  }

  /** The command line that a list of words is, if it is one. */
  function Parse(optstring: string, words: seq<string>): Option<Line> {
    ParseAt(optstring, words, 1)
  }

  // ---------- reading and writing command lines are inverse ----------

  /** A word is its flags, perhaps an option letter, perhaps the rest as an argument. */
  lemma WordParts(w: string, p: nat)
    requires OptionLike(w) && 1 <= p <= |w|
    ensures w == "-" + w[1..]
    ensures p < |w| ==> w == "-" + w[1..p] + [w[p]] + w[p + 1..]
    ensures p + 1 == |w| ==> w == "-" + w[1..p] + [w[p]]
    ensures p < |w| ==> (w[1..p] + [w[p]])[0] == w[1]
    ensures w[1..][0] == w[1]
  {
  }

  lemma ClusterGood(optstring: string, w: string)
    requires OptionLike(w) && FlagsEnd(optstring, w, 1) == |w|
    ensures GoodItem(optstring, Cluster(w[1..])) && ItemWords(Cluster(w[1..])) == [w]
  {
    WordParts(w, |w|);
    assert w[1..|w|] == w[1..];
  }

  lemma OptionGood(optstring: string, w: string, p: nat, arg: string)
    requires OptionLike(w) && p == FlagsEnd(optstring, w, 1) < |w| && Known(optstring, w[p])
    ensures p + 1 < |w| ==> var i := Attached(w[1..p], w[p], w[p + 1..]); GoodItem(optstring, i) && ItemWords(i) == [w]
    ensures p + 1 == |w| ==> var i := Separate(w[1..p], w[p], arg); GoodItem(optstring, i) && ItemWords(i) == [w, arg]
  {
    WordParts(w, p);
  }

  /** What is read from words is a command line with exactly those words: each is used once, in its place. */
  lemma {:induction false} ParseSound(optstring: string, words: seq<string>)
    ensures Parse(optstring, words).Some? ==>
              var l := Parse(optstring, words).value;
              GoodLine(optstring, l) && Unparse(l) == words
    decreases |words|
  {
    if words != [] && words[0] != "--" && OptionLike(words[0]) {
      var w := words[0];
      var p := FlagsEnd(optstring, w, 1);
      if p == |w| {
        ParseSound(optstring, words[1..]);
        ClusterGood(optstring, w);
        ItemFirst(optstring, Cluster(w[1..]), Parse(optstring, words[1..]), words, 1);
      } else if Known(optstring, w[p]) && p + 1 < |w| {
        ParseSound(optstring, words[1..]);
        OptionGood(optstring, w, p, "");
        ItemFirst(optstring, Attached(w[1..p], w[p], w[p + 1..]), Parse(optstring, words[1..]), words, 1);
      } else if Known(optstring, w[p]) && |words| > 1 {
        ParseSound(optstring, words[2..]);
        OptionGood(optstring, w, p, words[1]);
        ItemFirst(optstring, Separate(w[1..p], w[p], words[1]), Parse(optstring, words[2..]), words, 2);
      }
    }
  }

  lemma UnparseCons(i: Item, l: Line)
    ensures Unparse(l.(items := [i] + l.items)) == ItemWords(i) + Unparse(l)
  {
  }

  /** An item in front of a command line. */
  lemma ItemFirst(optstring: string, i: Item, rest: Option<Line>, words: seq<string>, n: nat)
    requires n <= |words| && GoodItem(optstring, i) && ItemWords(i) == words[..n]
    requires rest.Some? ==> GoodLine(optstring, rest.value) && Unparse(rest.value) == words[n..]
    ensures AddItem(i, rest).Some? ==>
              GoodLine(optstring, AddItem(i, rest).value) && Unparse(AddItem(i, rest).value) == words
  {
    if rest.Some? {
      UnparseCons(i, rest.value);
      assert words == words[..n] + words[n..];
    }
  }

  lemma FlagsEndIs(optstring: string, w: string, k: nat, p: nat)
    requires k <= p <= |w| && AllFlags(optstring, w[k..p]) && (p < |w| ==> !Flag(optstring, w[p]))
    ensures FlagsEnd(optstring, w, k) == p
    decreases p - k
  {
  }

  /** The first word of a good item is read as that item. */
  lemma ItemRead(optstring: string, i: Item)
    requires GoodItem(optstring, i)
    ensures var w, p := ItemWords(i)[0], 1 + |i.flags|;
            && OptionLike(w) && w != "--" && p <= |w| && FlagsEnd(optstring, w, 1) == p && w[1..p] == i.flags
            && (i.Cluster? ==> p == |w|)
            && (!i.Cluster? ==> p < |w| && w[p] == i.opt)
            && (i.Attached? ==> w[p + 1..] == i.arg)
            && (i.Separate? ==> p + 1 == |w|)
  {
    var w, p := ItemWords(i)[0], 1 + |i.flags|;
    assert w[1..p] == i.flags;
    FlagsEndIs(optstring, w, 1, p);
    if i.Attached? {
      assert w[p + 1..] == i.arg;
    }
  }

  /** The words of an item are read as that item. */
  lemma ParseItem(optstring: string, i: Item, rest: seq<string>)
    requires GoodItem(optstring, i)
    ensures Parse(optstring, ItemWords(i) + rest) == AddItem(i, Parse(optstring, rest))
  {
    var words := ItemWords(i) + rest;
    ItemRead(optstring, i);
    assert words[0] == ItemWords(i)[0];
    assert words[|ItemWords(i)|..] == rest;
  }

  /** Every good command line is read back from its words. */
  lemma {:induction false} ParseComplete(optstring: string, l: Line)
    requires GoodLine(optstring, l)
    ensures Parse(optstring, Unparse(l)) == Some(l)
    decreases |l.items|
  {
    if l.items == [] {
      var words := Unparse(l);
      if l.terminated {
        assert words == ["--"] + l.operands;
      } else {
        assert words == l.operands;
      }
    } else {
      var i, rest := l.items[0], l.(items := l.items[1..]);
      assert l == rest.(items := [i] + rest.items);
      UnparseCons(i, rest);
      assert forall j | 0 <= j < |rest.items| :: rest.items[j] == l.items[j + 1];
      ParseComplete(optstring, rest);
      ParseItem(optstring, i, Unparse(rest));
    }
  }

  /** Reading finds a command line exactly when there is one with these words, and then that one. */
  lemma ParseIff(optstring: string, words: seq<string>, l: Line)
    ensures Parse(optstring, words) == Some(l) <==> GoodLine(optstring, l) && Unparse(l) == words
  {
    ParseSound(optstring, words);
    if GoodLine(optstring, l) {
      ParseComplete(optstring, l);
    }
  }

  // ---------- what the callbacks are told ----------

  /** One callback: the letter, and the argument, which for a flag is the last one seen. */
  datatype Event = Event(opt: char, arg: string)

  function FlagEvents(flags: string, last: string): (e: seq<Event>)
    ensures |e| == |flags|
  {
    seq(|flags|, i requires 0 <= i < |flags| => Event(flags[i], last))
  }

  function ItemEvents(i: Item, last: string): seq<Event> {
    FlagEvents(i.flags, last) + (if i.Cluster? then [] else [Event(i.opt, i.arg)])
  }

  function LastArg(i: Item, last: string): string {
    if i.Cluster? then last else i.arg
  }

  function Events(items: seq<Item>, last: string): seq<Event> {
    if items == [] then [] else ItemEvents(items[0], last) + Events(items[1..], LastArg(items[0], last))
  }

  /** A cluster may be split behind any flag, if what follows can start a word. */
  lemma SplitCluster(optstring: string, items: seq<Item>, f: string, g: string, last: string)
    requires f != [] && g != [] && IsAlnum(f[0]) && AllFlags(optstring, f + g)
    ensures Events([Cluster(f + g)] + items, last) == Events([Cluster(f), Cluster(g)] + items, last)
    ensures GoodItem(optstring, Cluster(f + g))
    ensures IsAlnum(g[0]) <==> GoodItem(optstring, Cluster(f)) && GoodItem(optstring, Cluster(g))
  {
    var rest := [Cluster(g)] + items;
    assert ([Cluster(f + g)] + items)[1..] == items;
    assert [Cluster(f), Cluster(g)] + items == [Cluster(f)] + rest;
    assert ([Cluster(f)] + rest)[1..] == rest && rest[1..] == items;
    assert FlagEvents(f + g, last) == FlagEvents(f, last) + FlagEvents(g, last);
    assert forall i | 0 <= i < |f| :: f[i] == (f + g)[i];
    assert forall i | 0 <= i < |g| :: g[i] == (f + g)[|f| + i];
  }

  /** So may the flags before an option with an argument. */
  lemma SplitBeforeOption(optstring: string, items: seq<Item>, f: string, opt: char, arg: string, last: string)
    requires f != [] && GoodItem(optstring, Separate(f, opt, arg))
    ensures Events([Separate(f, opt, arg)] + items, last) == Events([Cluster(f), Separate([], opt, arg)] + items, last)
    ensures IsAlnum(opt) <==>
              GoodItem(optstring, Cluster(f)) && GoodItem(optstring, Separate([], opt, arg))
  {
  }

  /** An argument may stand in the same word or, whatever it looks like, in the next one. */
  lemma SplitArgument(optstring: string, items: seq<Item>, f: string, opt: char, arg: string, last: string)
    ensures Events([Attached(f, opt, arg)] + items, last) == Events([Separate(f, opt, arg)] + items, last)
    ensures arg != [] ==> (GoodItem(optstring, Attached(f, opt, arg)) <==> GoodItem(optstring, Separate(f, opt, arg)))
  {
  }

  // ---------- splits anywhere on the command line ----------

  function LastOf(items: seq<Item>, last: string): string {
    if items == [] then last else LastOf(items[1..], LastArg(items[0], last))
  }

  lemma EventsCons(i: Item, items: seq<Item>, last: string)
    ensures Events([i] + items, last) == ItemEvents(i, last) + Events(items, LastArg(i, last))
  {
  }

  /** Items with the same events may replace each other behind any others. */
  lemma {:induction false} EventsBehind(pre: seq<Item>, a: seq<Item>, b: seq<Item>, last: string)
    requires Events(a, LastOf(pre, last)) == Events(b, LastOf(pre, last))
    ensures Events(pre + a, last) == Events(pre + b, last)
    decreases |pre|
  {
    if pre == [] {
      assert pre + a == a && pre + b == b;
    } else {
      var i, rest := pre[0], pre[1..];
      EventsBehind(rest, a, b, LastArg(i, last));
      assert pre + a == [i] + (rest + a) && pre + b == [i] + (rest + b);
      EventsCons(i, rest + a, last);
      EventsCons(i, rest + b, last);
    }
  }

  /** Good items put in the place of others leave a good line. */
  lemma GoodBehind(optstring: string, pre: seq<Item>, a: seq<Item>, b: seq<Item>, l: Line)
    requires GoodLine(optstring, l) && l.items == pre + a
    requires forall i | 0 <= i < |b| :: GoodItem(optstring, b[i])
    ensures GoodLine(optstring, l.(items := pre + b))
  {
    forall i | 0 <= i < |pre + b| ensures GoodItem(optstring, (pre + b)[i]) {
      if i < |pre| {
        assert (pre + b)[i] == l.items[i];
      } else {
        assert (pre + b)[i] == b[i - |pre|];
      }
    }
  }

  lemma GoodRest(optstring: string, pre: seq<Item>, a: seq<Item>, l: Line, i: nat)
    requires GoodLine(optstring, l) && l.items == pre + a && i < |a|
    ensures GoodItem(optstring, a[i])
  {
    assert a[i] == l.items[|pre| + i];
  }

  /** What the callbacks are told by a list of words, if it is a command line. */
  function Told(optstring: string, words: seq<string>, last: string): Option<(seq<Event>, seq<string>)> {
    var l := Parse(optstring, words);
    if l.Some? then Some((Events(l.value.items, last), l.value.operands)) else None
  }

  /** Writing the cluster -FG as -F -G, anywhere among the options, tells the callbacks the same. */
  lemma ClusterSplitsAnywhere(optstring: string, pre: seq<Item>, f: string, g: string, post: seq<Item>, l: Line,
                              last: string)
    requires GoodLine(optstring, l) && l.items == pre + ([Cluster(f + g)] + post)
    requires f != [] && g != [] && IsAlnum(g[0])
    ensures var split := l.(items := pre + ([Cluster(f), Cluster(g)] + post));
            && Told(optstring, Unparse(l), last) == Told(optstring, Unparse(split), last)
            && Told(optstring, Unparse(l), last) == Some((Events(l.items, last), l.operands))
  {
    var a, b := [Cluster(f + g)] + post, [Cluster(f), Cluster(g)] + post;
    GoodRest(optstring, pre, a, l, 0);
    SplitCluster(optstring, post, f, g, LastOf(pre, last));
    forall i | 0 <= i < |b| ensures GoodItem(optstring, b[i]) {
      if i >= 2 {
        GoodRest(optstring, pre, a, l, i - 1);
      }
    }
    GoodBehind(optstring, pre, a, b, l);
    EventsBehind(pre, a, b, last);
    ParseComplete(optstring, l);
    ParseComplete(optstring, l.(items := pre + b));
  }

  /** Writing -oARG as -o ARG, anywhere among the options, tells the callbacks the same. */
  lemma ArgumentSplitsAnywhere(optstring: string, pre: seq<Item>, f: string, opt: char, arg: string, post: seq<Item>,
                               l: Line, last: string)
    requires GoodLine(optstring, l) && l.items == pre + ([Attached(f, opt, arg)] + post)
    ensures var split := l.(items := pre + ([Separate(f, opt, arg)] + post));
            && Told(optstring, Unparse(l), last) == Told(optstring, Unparse(split), last)
            && Told(optstring, Unparse(l), last) == Some((Events(l.items, last), l.operands))
  {
    var a, b := [Attached(f, opt, arg)] + post, [Separate(f, opt, arg)] + post;
    GoodRest(optstring, pre, a, l, 0);
    SplitArgument(optstring, post, f, opt, arg, LastOf(pre, last));
    forall i | 0 <= i < |b| ensures GoodItem(optstring, b[i]) {
      if i >= 1 {
        GoodRest(optstring, pre, a, l, i);
      }
    }
    GoodBehind(optstring, pre, a, b, l);
    EventsBehind(pre, a, b, last);
    ParseComplete(optstring, l);
    ParseComplete(optstring, l.(items := pre + b));
  }
}
