/** `Converter::cnvToXmp` with erasing: when a move sets the same properties as a copy, and what becomes of the tags. */
module ConvertMove {
  import opened Basics
  import opened ConvertTable
  import opened ConvertFlash
  import opened Convert

  // ---------- one row ----------

  /** The row takes its tags away. */
  predicate Takers(overwrite: bool, s: Source, o: Outcome, x: Xmp) {
    o.Late? && o.taken && !Stays(overwrite, s, x)
  }

  /** The tags after one conversion with erasing. */
  function Remaining(overwrite: bool, s: Source, o: Outcome, e: Exif, x: Xmp): Exif {
    if Takers(overwrite, s, o, x) then e - Takes(s) else e
  }

  /** The tags and the properties after a move by these rows. */
  function Moved(f: Formats, overwrite: bool, rows: seq<Source>, e: Exif, x: Xmp): (Exif, Xmp)
    decreases |rows|
  {
    if rows == [] then (e, x)
    else
      var o := OutcomeOf(f, rows[0], e);
      Moved(f, overwrite, rows[1..], Remaining(overwrite, rows[0], o, e, x), Applied(overwrite, rows[0], o, x))
  }

  /** Tags and properties of row `s` that are the same. */
  ghost predicate SameAt(s: Source, a: (Exif, Xmp), b: (Exif, Xmp)) {
    SameOn(a.0, b.0, Takes(s)) && SameOn(a.1, b.1, Touches(s))
  }

  /** What the row makes of both, given its outcome. */
  function Step(overwrite: bool, s: Source, o: Outcome, a: (Exif, Xmp)): (Exif, Xmp) {
    (Remaining(overwrite, s, o, a.0, a.1), Applied(overwrite, s, o, a.1))
  }

  lemma StepFrame(overwrite: bool, t: Source, o: Outcome, a: (Exif, Xmp), s: Source)
    requires Fits(t, o) && s != t
    ensures SameAt(s, a, Step(overwrite, t, o, a))
  {
    RowsApart(s, t);
    AppliedFrame(overwrite, t, o, a.1);
    forall k | k in Touches(s) ensures SameOn(a.1, Step(overwrite, t, o, a).1, {k}) {
    }
    assert forall k | k in Touches(s) :: k in {k};
  }

  lemma StepLocal(overwrite: bool, s: Source, o: Outcome, a: (Exif, Xmp), b: (Exif, Xmp))
    requires Fits(s, o) && SameAt(s, a, b)
    ensures SameAt(s, Step(overwrite, s, o, a), Step(overwrite, s, o, b))
  {
    AppliedLocal(overwrite, s, o, a.1, b.1);
  }

  /** A second conversion by the same row changes nothing. */
  lemma StepTwice(f: Formats, overwrite: bool, s: Source, a: (Exif, Xmp))
    ensures var b := Step(overwrite, s, OutcomeOf(f, s, a.0), a); Step(overwrite, s, OutcomeOf(f, s, b.0), b) == b
  {
    var o := OutcomeOf(f, s, a.0);
    if Takers(overwrite, s, o, a.1) {
      assert Listed(s) !in Step(overwrite, s, o, a).0;
    } else {
      AppliedTwice(overwrite, s, o, a.1);
    }
  }

  // ---------- all rows ----------

  lemma {:induction false} MovedElse(f: Formats, overwrite: bool, rows: seq<Source>, e: Exif, x: Xmp, s: Source)
    requires s !in rows
    ensures SameAt(s, Moved(f, overwrite, rows, e, x), (e, x))
    decreases |rows|
  {
    if rows != [] {
      var o := OutcomeOf(f, rows[0], e);
      var b := Step(overwrite, rows[0], o, (e, x));
      OutcomeFits(f, rows[0], e);
      StepFrame(overwrite, rows[0], o, (e, x), s);
      MovedElse(f, overwrite, rows[1..], b.0, b.1, s);
    }
  }

  /** A tag that no row takes stays. */
  lemma {:induction false} MovedTag(f: Formats, overwrite: bool, rows: seq<Source>, e: Exif, x: Xmp, k: Tag)
    requires forall s | s in rows :: k !in Takes(s)
    ensures SameOn(Moved(f, overwrite, rows, e, x).0, e, {k})
    decreases |rows|
  {
    if rows != [] {
      var b := Step(overwrite, rows[0], OutcomeOf(f, rows[0], e), (e, x));
      MovedTag(f, overwrite, rows[1..], b.0, b.1, k);
    }
  }

  /** A property that no row touches stays. */
  lemma {:induction false} MovedFrame(f: Formats, overwrite: bool, rows: seq<Source>, e: Exif, x: Xmp, k: Property)
    requires forall s | s in rows :: k !in Touches(s)
    ensures SameOn(Moved(f, overwrite, rows, e, x).1, x, {k})
    decreases |rows|
  {
    if rows != [] {
      var o := OutcomeOf(f, rows[0], e);
      var b := Step(overwrite, rows[0], o, (e, x));
      OutcomeFits(f, rows[0], e);
      AppliedFrame(overwrite, rows[0], o, x);
      MovedFrame(f, overwrite, rows[1..], b.0, b.1, k);
    }
  }

  /** A row that looks only at tags of its own does in a move what it would do alone. */
  lemma {:induction false} MovedAt(f: Formats, overwrite: bool, rows: seq<Source>, e: Exif, x: Xmp, s: Source)
    requires s in rows && s != CLOCK
    ensures SameAt(s, Moved(f, overwrite, rows, e, x), Step(overwrite, s, OutcomeOf(f, s, e), (e, x)))
    decreases |rows|
  {
    var o, rest := OutcomeOf(f, rows[0], e), rows[1..];
    var b := Step(overwrite, rows[0], o, (e, x));
    OutcomeFits(f, rows[0], e);
    if rows[0] != s {
      OutcomeFits(f, s, e);
      StepFrame(overwrite, rows[0], o, (e, x), s);
      OutcomeLocal(f, s, e, b.0);
      StepLocal(overwrite, s, OutcomeOf(f, s, e), (e, x), b);
      MovedAt(f, overwrite, rest, b.0, b.1, s);
    } else if s in rest {
      StepTwice(f, overwrite, s, (e, x));
      MovedAt(f, overwrite, rest, b.0, b.1, s);
    } else {
      MovedElse(f, overwrite, rest, b.0, b.1, s);
    }
  }

  lemma {:induction false} MovedThen(f: Formats, overwrite: bool, rows: seq<Source>, more: seq<Source>, e: Exif, x: Xmp)
    ensures var a := Moved(f, overwrite, rows, e, x);
            Moved(f, overwrite, rows + more, e, x) == Moved(f, overwrite, more, a.0, a.1)
    decreases |rows|
  {
    if rows == [] {
      assert rows + more == more;
    } else {
      var b := Step(overwrite, rows[0], OutcomeOf(f, rows[0], e), (e, x));
      assert (rows + more)[1..] == rows[1..] + more;
      MovedThen(f, overwrite, rows[1..], more, b.0, b.1);
    }
  }

  // ---------- the GPS time stamp ----------

  /** The row of a date takes it. */
  predicate DateTaken(f: Formats, overwrite: bool, s: Source, e: Exif, x: Xmp)
    requires KindOf(s) == Date
  {
    Listed(s) in e && e[Listed(s)].ok && |f.numbers(e[Listed(s)].text)| >= 6 && !Stays(overwrite, s, x)
  }

  /** The tag that gives the day to the GPS time stamp in a move. */
  function DayLeft(f: Formats, overwrite: bool, e: Exif, x: Xmp): Option<Tag> {
    if GPSDateStamp in e then Some(GPSDateStamp)
    else if Listed(CREATED) in e && !DateTaken(f, overwrite, CREATED, e, x) then Some(Listed(CREATED))
    else if Listed(DIGITIZED) in e && !DateTaken(f, overwrite, DIGITIZED, e, x) then Some(Listed(DIGITIZED))
    else None
  }

  /** What the conversion of a row does in a move. */
  function MoveOutcome(f: Formats, overwrite: bool, s: Source, e: Exif, x: Xmp): Outcome {
    if s != CLOCK || Listed(CLOCK) !in e then OutcomeOf(f, s, e)
    else
      var t := TimeOf(f, e[Listed(CLOCK)]);
      Told(Target(CLOCK), if t.None? then None else ClockWith(f, t.value, DayLeft(f, overwrite, e, x), e))
  }

  /** The tag is there with its value, unless it was taken. */
  ghost predicate Kept(g: Exif, e: Exif, k: Tag, taken: bool) {
    (k in g <==> k in e && !taken) && (k in g ==> g[k] == e[k])
  }

  lemma DateLeft(f: Formats, overwrite: bool, s: Source, e: Exif, x: Xmp)
    requires KindOf(s) == Date && s in BEFORE
    ensures Kept(Moved(f, overwrite, BEFORE, e, x).0, e, Listed(s), DateTaken(f, overwrite, s, e, x))
  {
    MovedAt(f, overwrite, BEFORE, e, x, s);
  }

  lemma StampKept(f: Formats, overwrite: bool, rows: seq<Source>, e: Exif, x: Xmp)
    ensures Kept(Moved(f, overwrite, rows, e, x).0, e, GPSDateStamp, false)
  {
    MovedTag(f, overwrite, rows, e, x, GPSDateStamp);
    assert GPSDateStamp in {GPSDateStamp};
  }

  lemma ClockKept(f: Formats, overwrite: bool, e: Exif, x: Xmp)
    ensures var a := Moved(f, overwrite, BEFORE, e, x);
            SameAt(CLOCK, a, (e, x)) && Kept(a.0, e, Listed(CLOCK), false)
  {
    ClockApart();
    MovedElse(f, overwrite, BEFORE, e, x, CLOCK);
    assert Listed(CLOCK) in Takes(CLOCK);
  }

  lemma DaySame(f: Formats, overwrite: bool, e: Exif, x: Xmp, g: Exif, day: Option<Tag>)
    requires Kept(g, e, GPSDateStamp, false) && day == DayTag(g)
    requires Kept(g, e, Listed(CREATED), DateTaken(f, overwrite, CREATED, e, x))
    requires Kept(g, e, Listed(DIGITIZED), DateTaken(f, overwrite, DIGITIZED, e, x))
    ensures day == DayLeft(f, overwrite, e, x)
    ensures day.Some? ==> day.value in g && day.value in e && g[day.value] == e[day.value]
  {
  }

  lemma ClockSame(f: Formats, overwrite: bool, e: Exif, x: Xmp, g: Exif)
    requires Kept(g, e, Listed(CLOCK), false) && DayTag(g) == DayLeft(f, overwrite, e, x)
    requires DayTag(g).Some? ==> DayTag(g).value in e && g[DayTag(g).value] == e[DayTag(g).value]
    ensures OutcomeOf(f, CLOCK, g) == MoveOutcome(f, overwrite, CLOCK, e, x)
  {
  }

  /** When the GPS time stamp is reached. */
  lemma BeforeClock(f: Formats, overwrite: bool, e: Exif, x: Xmp)
    ensures var a := Moved(f, overwrite, BEFORE, e, x);
            SameAt(CLOCK, a, (e, x)) && OutcomeOf(f, CLOCK, a.0) == MoveOutcome(f, overwrite, CLOCK, e, x)
  {
    var g := Moved(f, overwrite, BEFORE, e, x).0;
    ClockKept(f, overwrite, e, x);
    StampKept(f, overwrite, BEFORE, e, x);
    DatesBefore();
    DateLeft(f, overwrite, CREATED, e, x);
    DateLeft(f, overwrite, DIGITIZED, e, x);
    DaySame(f, overwrite, e, x, g, DayTag(g));
    ClockSame(f, overwrite, e, x, g);
  }

  /** What a move by the table makes of the tags and the properties of each row. */
  lemma MovedTable(f: Formats, overwrite: bool, e: Exif, x: Xmp, s: Source)
    ensures SameAt(s, Moved(f, overwrite, TABLE, e, x),
                   Step(overwrite, s, MoveOutcome(f, overwrite, s, e, x), (e, x)))
  {
    if s != CLOCK {
      Listing(s);
      MovedAt(f, overwrite, TABLE, e, x, s);
    } else {
      var a := Moved(f, overwrite, BEFORE, e, x);
      var o := OutcomeOf(f, CLOCK, a.0);
      var b := Step(overwrite, CLOCK, o, a);
      assert TABLE == BEFORE + ([CLOCK] + BEHIND);
      MovedThen(f, overwrite, BEFORE, [CLOCK] + BEHIND, e, x);
      assert ([CLOCK] + BEHIND)[1..] == BEHIND;
      ClockApart();
      MovedElse(f, overwrite, BEHIND, b.0, b.1, CLOCK);
      BeforeClock(f, overwrite, e, x);
      OutcomeFits(f, CLOCK, a.0);
      StepLocal(overwrite, CLOCK, o, a, (e, x));
    }
  }

  /** The day of the GPS time stamp does not matter, or is the same in a move as in a copy: there is a GPS date stamp;
      or the date that gives the day stays, because it is unreadable or its own property must stay; or there is none;
      or the original date is taken and the other one stays and tells the same. */
  predicate DayStays(f: Formats, overwrite: bool, e: Exif, x: Xmp) {
    var created, digitized := Listed(CREATED), Listed(DIGITIZED);
    || Listed(CLOCK) !in e || Stays(overwrite, CLOCK, x) || TimeOf(f, e[Listed(CLOCK)]).None?
    || GPSDateStamp in e
    || (if created !in e then !DateTaken(f, overwrite, DIGITIZED, e, x)
        else
          || !DateTaken(f, overwrite, CREATED, e, x)
          || (digitized in e && !DateTaken(f, overwrite, DIGITIZED, e, x)
              && var t := TimeOf(f, e[Listed(CLOCK)]).value;
                 ClockWith(f, t, Some(created), e) == ClockWith(f, t, Some(digitized), e)))
  }

  lemma ClockSameIff(f: Formats, overwrite: bool, e: Exif, x: Xmp)
    ensures Applied(overwrite, CLOCK, MoveOutcome(f, overwrite, CLOCK, e, x), x) == Converted(f, overwrite, CLOCK, e, x)
      <==> DayStays(f, overwrite, e, x)
  {
    if Listed(CLOCK) in e && !Stays(overwrite, CLOCK, x) && TimeOf(f, e[Listed(CLOCK)]).Some? {
      var t := TimeOf(f, e[Listed(CLOCK)]).value;
      var a, b := ClockWith(f, t, DayTag(e), e), ClockWith(f, t, DayLeft(f, overwrite, e, x), e);
      ToldDiffer(overwrite, CLOCK, a, b, x);
    }
  }

  lemma ToldDiffer(overwrite: bool, s: Source, a: Option<string>, b: Option<string>, x: Xmp)
    requires !Stays(overwrite, s, x)
    ensures Applied(overwrite, s, Told(Target(s), a), x) == Applied(overwrite, s, Told(Target(s), b), x) <==> a == b
  {
    var y, z := Applied(overwrite, s, Told(Target(s), a), x), Applied(overwrite, s, Told(Target(s), b), x);
    assert a.Some? ==> y[Target(s)] == [a.value];
    assert b.Some? ==> z[Target(s)] == [b.value];
  }

  lemma AppliedSame(overwrite: bool, s: Source, o: Outcome, q: Outcome, x: Xmp)
    requires Fits(s, o) && Fits(s, q)
    requires SameOn(Applied(overwrite, s, o, x), Applied(overwrite, s, q, x), Touches(s))
    ensures Applied(overwrite, s, o, x) == Applied(overwrite, s, q, x)
  {
    var y, z := Applied(overwrite, s, o, x), Applied(overwrite, s, q, x);
    forall k: Property ensures SameOn(y, z, {k}) {
      if k !in Touches(s) {
        AppliedFrame(overwrite, s, o, x);
        AppliedFrame(overwrite, s, q, x);
      }
    }
    SameEverywhere(y, z);
  }

  lemma MoveFits(f: Formats, overwrite: bool, s: Source, e: Exif, x: Xmp)
    ensures Fits(s, MoveOutcome(f, overwrite, s, e, x))
  {
    OutcomeFits(f, s, e);
  }

  /** The property that a row has no part in, or whose row makes the same of it in a move and in a copy. */
  lemma SameProperty(f: Formats, overwrite: bool, e: Exif, x: Xmp, k: Property)
    requires DayStays(f, overwrite, e, x)
    ensures SameOn(Moved(f, overwrite, TABLE, e, x).1, Copied(f, overwrite, TABLE, e, x), {k})
  {
    var s := Changer(k);
    TableAt(f, overwrite, e, x, k);
    if k in Touches(s) {
      MovedTable(f, overwrite, e, x, s);
      ClockSameIff(f, overwrite, e, x);
      assert Applied(overwrite, s, MoveOutcome(f, overwrite, s, e, x), x) == Converted(f, overwrite, s, e, x);
    } else {
      forall t | t in TABLE ensures k !in Touches(t) {
        if k in Touches(t) {
          TouchedBy(t, k);
        }
      }
      MovedFrame(f, overwrite, TABLE, e, x, k);
    }
  }

  /** A move sets the same properties as a copy, exactly if the GPS time stamp keeps its day. */
  lemma MoveIsCopyIff(f: Formats, overwrite: bool, e: Exif, x: Xmp)
    ensures Moved(f, overwrite, TABLE, e, x).1 == Copied(f, overwrite, TABLE, e, x) <==> DayStays(f, overwrite, e, x)
  {
    var y, z := Moved(f, overwrite, TABLE, e, x).1, Copied(f, overwrite, TABLE, e, x);
    ClockSameIff(f, overwrite, e, x);
    Listing(CLOCK);
    MovedTable(f, overwrite, e, x, CLOCK);
    CopiedAt(f, overwrite, TABLE, e, x, CLOCK);
    if DayStays(f, overwrite, e, x) {
      forall k: Property ensures SameOn(y, z, {k}) {
        SameProperty(f, overwrite, e, x, k);
      }
      SameEverywhere(y, z);
    } else if y == z {
      MoveFits(f, overwrite, CLOCK, e, x);
      OutcomeFits(f, CLOCK, e);
      AppliedSame(overwrite, CLOCK, MoveOutcome(f, overwrite, CLOCK, e, x), OutcomeOf(f, CLOCK, e), x);
    }
  }

  /** It loses its day when there is only the original date: the GPS time stamp is then copied but not moved. */
  lemma MoveLosesTime(f: Formats, overwrite: bool, date: Value, time: Value)
    requires date.ok && |f.numbers(date.text)| >= 6 && TimeOf(f, time).Some?
    ensures var e: Exif := map[Listed(CREATED) := date, Listed(CLOCK) := time];
            var (left, y) := Moved(f, overwrite, TABLE, e, map[]);
            && Target(CLOCK) in Copied(f, overwrite, TABLE, e, map[]) && Target(CLOCK) !in y
            && Listed(CREATED) !in left && Listed(CLOCK) in left
  {
    var e: Exif := map[Listed(CREATED) := date, Listed(CLOCK) := time];
    assert DayTag(e) == Some(Listed(CREATED)) && DayLeft(f, overwrite, e, map[]) == None;
    assert MoveOutcome(f, overwrite, CLOCK, e, map[]) == Late(map[], false);
    assert OutcomeOf(f, CLOCK, e).Late? && Target(CLOCK) in OutcomeOf(f, CLOCK, e).written;
    ClockLost(f, overwrite, e);
    assert OutcomeOf(f, CREATED, e).Late? && OutcomeOf(f, CREATED, e).taken;
    MovedTable(f, overwrite, e, map[], CREATED);
    assert Listed(CREATED) in Takes(CREATED);
  }

  lemma ClockLost(f: Formats, overwrite: bool, e: Exif)
    requires MoveOutcome(f, overwrite, CLOCK, e, map[]) == Late(map[], false)
    requires OutcomeOf(f, CLOCK, e).Late? && Target(CLOCK) in OutcomeOf(f, CLOCK, e).written
    ensures Target(CLOCK) in Copied(f, overwrite, TABLE, e, map[])
    ensures var (left, y) := Moved(f, overwrite, TABLE, e, map[]);
            Target(CLOCK) !in y && (Listed(CLOCK) in left <==> Listed(CLOCK) in e)
  {
    Listing(CLOCK);
    CopiedAt(f, overwrite, TABLE, e, map[], CLOCK);
    MovedTable(f, overwrite, e, map[], CLOCK);
    assert Target(CLOCK) in Touches(CLOCK) && Listed(CLOCK) in Takes(CLOCK);
  }

  // ---------- what is taken is written ----------

  /** The conversions that take their tag without setting anything: that of a comment that cannot be decoded, and that
      of an array without components. */
  predicate Vanishes(s: Source, v: Value) {
    (KindOf(s) == Comment && v.remark.Garbled?) || (KindOf(s) == Array && v.components == [])
  }

  lemma VanishesIff(f: Formats, overwrite: bool, s: Source, e: Exif, x: Xmp)
    requires MoveOutcome(f, overwrite, s, e, x).Late? && MoveOutcome(f, overwrite, s, e, x).taken
    ensures MoveOutcome(f, overwrite, s, e, x).written == map[] <==> Vanishes(s, e[Listed(s)])
  {
    var o, v := MoveOutcome(f, overwrite, s, e, x), e[Listed(s)];
    if KindOf(s) == Structure {
      assert FlashPart(Fired) in o.written;
    } else if !Vanishes(s, v) {
      assert Target(s) in o.written;
    }
  }

  /** A tag that a move erases has left a property of its row behind, unless its value vanishes. */
  lemma TakenIsWrittenIff(f: Formats, overwrite: bool, e: Exif, x: Xmp, s: Source)
    requires Listed(s) in e && Listed(s) !in Moved(f, overwrite, TABLE, e, x).0
    ensures Touches(s) !! Moved(f, overwrite, TABLE, e, x).1.Keys <==> Vanishes(s, e[Listed(s)])
  {
    var o := MoveOutcome(f, overwrite, s, e, x);
    MovedTable(f, overwrite, e, x, s);
    assert Listed(s) in Takes(s);
    VanishesIff(f, overwrite, s, e, x);
    MoveFits(f, overwrite, s, e, x);
    if !Vanishes(s, e[Listed(s)]) {
      var k :| k in o.written;
      assert k in Touches(s);
    }
  }

  // ---------- the fraction of a second ----------

  /** A fraction shows in a time stamp unless the buffer is full before it. */
  lemma FractionShows(date: string, time: string, digits: string)
    ensures Stamp(date, time, "." + digits) != Stamp(date, time, "") <==> |date| + 1 + |time| < 29
  {
    var base, fraction := date + "T" + time, Cut("." + digits, 10);
    assert |fraction| > 0 && base + "" == base && Cut("", 10) == "";
    if |base| >= 29 {
      assert (base + fraction)[..29] == base[..29];
      assert base[..|base|] == base;
    } else {
      assert |Cut(base + fraction, 29)| > |base|;
    }
  }

  /** A move erases the fraction of a second together with its date. Its digits are in the property exactly if they are
      digits in a text, and date and time leave room for them. */
  lemma TakenFractionIff(f: Formats, overwrite: bool, e: Exif, x: Xmp, s: Source)
    requires KindOf(s) == Date && SubSecOf(s) in e
    ensures var (left, y) := Moved(f, overwrite, TABLE, e, x);
            && (SubSecOf(s) !in left <==> DateTaken(f, overwrite, s, e, x))
            && (SubSecOf(s) !in left ==>
                  var n := f.numbers(e[Listed(s)].text);
                  && Target(s) in y
                  && (y[Target(s)] != [Stamp(f.date(n[..3]), f.time(n[3..6]), "")]
                      <==> Usable(f, e[SubSecOf(s)]) && |f.date(n[..3])| + 1 + |f.time(n[3..6])| < 29))
  {
    MovedTable(f, overwrite, e, x, s);
    assert SubSecOf(s) in Takes(s) && Target(s) in Touches(s);
    if DateTaken(f, overwrite, s, e, x) {
      var n := f.numbers(e[Listed(s)].text);
      FractionShows(f.date(n[..3]), f.time(n[3..6]), e[SubSecOf(s)].text);
      assert OutcomeOf(f, s, e) == Told(Target(s), DateText(f, s, e));
    }
  }
}
