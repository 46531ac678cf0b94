/** `Converter::cnvToXmp`: what the conversion of each Exif tag sets, and what all of them leave in a copy. */
module Convert {
  import opened Basics
  import opened ConvertTable
  import opened ConvertFlash

  // ---------- values ----------

  /** A component of a value, as text if it can be read, as a fraction and as a number. */
  datatype Component = Component(text: Option<string>, numerator: int, denominator: int, integer: int)

  /** The user comment: of another type, not decodable, or a text. */
  datatype Remark = NoRemark | Garbled | Remark(text: string)

  /** The value of a tag: its text, and whether making it was `ok`, whether it has the type `asciiString`, its
      components, the first of them as an unsigned number of 32 bits if it is one, and its comment. */
  datatype Value = Value(text: string, ok: bool, ascii: bool, components: seq<Component>, number: Option<nat>,
                         remark: Remark)

  /** The containers: one entry for each key, and one text for each element of an XMP value. */
  type Exif = map<Tag, Value>

  datatype TimeOfDay = TimeOfDay(time: string, fraction: string)

  /** Reading and writing of numbers: those that `sscanf` reads between colons, whether a text is one number, dates and
      times of three numbers, the time of day and the coordinate that three components stand for, and decimals. */
  datatype Formats = Formats(numbers: string -> seq<int>, whole: string -> bool, date: seq<int> -> string,
                             time: seq<int> -> string, clock: seq<Component> -> Option<TimeOfDay>,
                             coordinate: (seq<Component>, string) -> string, decimal: int -> string)

  // ---------- what a conversion does ----------

  /** A conversion may stop before it makes room for its target, or afterwards, with what it has set by then; it may
      or may not take its tags when moving. */
  datatype Outcome = Early | Late(written: Xmp, taken: bool)

  function Told(k: Property, text: Option<string>): Outcome {
    if text.Some? then Late(map[k := [text.value]], true) else Late(map[], false)
  }

  function Cut(s: string, n: nat): string {
    if |s| > n then s[..n] else s
  }

  /** A buffer holds 29 characters, and the fraction of the second at most 10. */
  function Stamp(date: string, time: string, fraction: string): string {
    Cut(date + "T" + time + Cut(fraction, 10), 29)
  }

  /** The tag holds the digits of a fraction. */
  predicate Usable(f: Formats, v: Value) {
    v.ascii && v.text != "" && f.whole(v.text)
  }

  function Fraction(f: Formats, k: Tag, e: Exif): string {
    if k in e && Usable(f, e[k]) then "." + e[k].text else ""
  }

  /** A date and a time of day are read from the text of the tag. */
  function DateText(f: Formats, s: Source, e: Exif): Option<string>
    requires KindOf(s) == Date && Listed(s) in e
  {
    var v, n := e[Listed(s)], f.numbers(e[Listed(s)].text);
    if v.ok && |n| >= 6 then Some(Stamp(f.date(n[..3]), f.time(n[3..6]), Fraction(f, SubSecOf(s), e))) else None
  }

  /** Three fractions. */
  predicate Fractions(c: seq<Component>) {
    |c| == 3 && c[0].denominator != 0 && c[1].denominator != 0 && c[2].denominator != 0
  }

  function TimeOf(f: Formats, v: Value): Option<TimeOfDay> {
    if Fractions(v.components) then f.clock(v.components) else None
  }

  /** The tag that gives the day to the GPS time stamp. */
  function DayTag(e: Exif): Option<Tag> {
    if GPSDateStamp in e then Some(GPSDateStamp)
    else if Listed(CREATED) in e then Some(Listed(CREATED))
    else if Listed(DIGITIZED) in e then Some(Listed(DIGITIZED))
    else None
  }

  /** A time of day together with the day in another tag. */
  function ClockWith(f: Formats, t: TimeOfDay, day: Option<Tag>, e: Exif): Option<string>
    requires day.Some? ==> day.value in e
  {
    if day.None? || |f.numbers(e[day.value].text)| < 3 then None
    else Some(Stamp(f.date(f.numbers(e[day.value].text)[..3]), t.time, t.fraction))
  }

  function ClockText(f: Formats, e: Exif): Option<string>
    requires Listed(CLOCK) in e
  {
    var t := TimeOf(f, e[Listed(CLOCK)]);
    if t.None? then None else ClockWith(f, t.value, DayTag(e), e)
  }

  function CoordinateText(f: Formats, s: Source, e: Exif): Option<string>
    requires KindOf(s) == Coordinate && Listed(s) in e
  {
    var c := e[Listed(s)].components;
    if Fractions(c) && RefOf(s) in e then Some(f.coordinate(c, e[RefOf(s)].text)) else None
  }

  /** The components up to the first unreadable one. */
  function Readable(c: seq<Component>): (r: seq<string>)
    ensures |r| <= |c|
  {
    if c == [] || c[0].text.None? then [] else [c[0].text.value] + Readable(c[1..])
  }

  function ArrayOutcome(k: Property, c: seq<Component>): Outcome {
    Late(if Readable(c) == [] then map[] else map[k := Readable(c)], |Readable(c)| == |c|)
  }

  /** Each component as one byte. */
  function Bytes(c: seq<Component>): string {
    if c == [] then "" else [(c[0].integer % 256) as char] + Bytes(c[1..])
  }

  /** The components as decimals, with points between. */
  function Pointed(f: Formats, c: seq<Component>): string {
    if c == [] then ""
    else if |c| == 1 then f.decimal(c[0].integer)
    else f.decimal(c[0].integer) + "." + Pointed(f, c[1..])
  }

  function FlashOutcome(v: Value): Outcome {
    if v.components == [] then Early
    else if v.number.None? then Late(map[], false)
    else Late(FlashFields(v.number.value), true)
  }

  function RemarkOutcome(k: Property, r: Remark): Outcome {
    match r
    case NoRemark => Late(map[], false)
    case Garbled => Late(map[], true)
    case Remark(text) => Late(map[k := [text]], true)
  }

  /** What the conversion of a row does with the tags. */
  function OutcomeOf(f: Formats, s: Source, e: Exif): Outcome {
    if Listed(s) !in e then Early
    else
      var v, k := e[Listed(s)], Target(s);
      match KindOf(s)
      case Plain => if v.ok then Told(k, Some(v.text)) else Early
      case Comment => RemarkOutcome(k, v.remark)
      case Array => ArrayOutcome(k, v.components)
      case Date => Told(k, DateText(f, s, e))
      case Clock => Told(k, ClockText(f, e))
      case Version => Told(k, Some(Bytes(v.components)))
      case GpsVersion => Told(k, Some(Pointed(f, v.components)))
      case Structure => FlashOutcome(v)
      case Coordinate => Told(k, CoordinateText(f, s, e))
  }

  /** Only the properties of the row are set. */
  predicate Fits(s: Source, o: Outcome) {
    o.Late? ==> o.written.Keys <= Touches(s)
  }

  lemma OutcomeFits(f: Formats, s: Source, e: Exif)
    ensures Fits(s, OutcomeOf(f, s, e))
  {
  }

  ghost predicate SameOn<K, V>(e: map<K, V>, g: map<K, V>, keys: set<K>) {
    forall k | k in keys :: (k in e <==> k in g) && (k in e ==> e[k] == g[k])
  }

  /** Only the tags that the row looks at matter. */
  lemma OutcomeLocal(f: Formats, s: Source, e: Exif, g: Exif)
    requires SameOn(e, g, Looks(s))
    ensures OutcomeOf(f, s, e) == OutcomeOf(f, s, g)
  {
  }

  // ---------- one row ----------

  function Without<K, V>(m: map<K, V>, k: K): map<K, V> {
    map x | x in m && x != k :: m[x]
  }

  /** The target must stay. */
  predicate Stays(overwrite: bool, s: Source, x: Xmp) {
    Target(s) in x && !overwrite
  }

  /** The properties after one conversion. */
  function Applied(overwrite: bool, s: Source, o: Outcome, x: Xmp): Xmp {
    if o.Early? || Stays(overwrite, s, x) then x else Without(x, Target(s)) + o.written
  }

  function Converted(f: Formats, overwrite: bool, s: Source, e: Exif, x: Xmp): Xmp {
    Applied(overwrite, s, OutcomeOf(f, s, e), x)
  }

  lemma AppliedFrame(overwrite: bool, s: Source, o: Outcome, x: Xmp)
    requires Fits(s, o)
    ensures forall k | k !in Touches(s) :: SameOn(Applied(overwrite, s, o, x), x, {k})
  {
  }

  /** A row sees only the properties it touches. */
  lemma AppliedLocal(overwrite: bool, s: Source, o: Outcome, x: Xmp, y: Xmp)
    requires Fits(s, o) && SameOn(x, y, Touches(s))
    ensures SameOn(Applied(overwrite, s, o, x), Applied(overwrite, s, o, y), Touches(s))
  {
  }

  /** Converting a second time changes nothing. */
  lemma AppliedTwice(overwrite: bool, s: Source, o: Outcome, x: Xmp)
    ensures var y := Applied(overwrite, s, o, x); Applied(overwrite, s, o, y) == y
  {
  }

  // ---------- all rows ----------

  /** The properties after a copy by these rows. */
  function Copied(f: Formats, overwrite: bool, rows: seq<Source>, e: Exif, x: Xmp): Xmp
    decreases |rows|
  {
    if rows == [] then x else Copied(f, overwrite, rows[1..], e, Converted(f, overwrite, rows[0], e, x))
  }

  /** Properties that no row touches are left alone. */
  lemma {:induction false} CopiedFrame(f: Formats, overwrite: bool, rows: seq<Source>, e: Exif, x: Xmp, k: Property)
    requires forall s | s in rows :: k !in Touches(s)
    ensures SameOn(Copied(f, overwrite, rows, e, x), x, {k})
    decreases |rows|
  {
    if rows != [] {
      var o := OutcomeOf(f, rows[0], e);
      OutcomeFits(f, rows[0], e);
      AppliedFrame(overwrite, rows[0], o, x);
      CopiedFrame(f, overwrite, rows[1..], e, Applied(overwrite, rows[0], o, x), k);
    }
  }

  /** The properties of a row end up as that row alone would have left them, in any order of the rows and however
      often they come. */
  lemma {:induction false} CopiedAt(f: Formats, overwrite: bool, rows: seq<Source>, e: Exif, x: Xmp, s: Source)
    requires s in rows
    ensures SameOn(Copied(f, overwrite, rows, e, x), Converted(f, overwrite, s, e, x), Touches(s))
    decreases |rows|
  {
    var o, rest := OutcomeOf(f, rows[0], e), rows[1..];
    var y := Applied(overwrite, rows[0], o, x);
    OutcomeFits(f, s, e);
    OutcomeFits(f, rows[0], e);
    if rows[0] != s {
      assert s in rest;
      RowsApart(rows[0], s);
      AppliedFrame(overwrite, rows[0], o, x);
      assert SameOn(x, y, Touches(s));
      AppliedLocal(overwrite, s, OutcomeOf(f, s, e), x, y);
      CopiedAt(f, overwrite, rest, e, y, s);
    } else if s in rest {
      AppliedTwice(overwrite, s, o, x);
      CopiedAt(f, overwrite, rest, e, y, s);
    } else {
      CopiedRest(f, overwrite, rest, e, y, s);
    }
  }

  lemma CopiedRest(f: Formats, overwrite: bool, rows: seq<Source>, e: Exif, x: Xmp, s: Source)
    requires s !in rows
    ensures SameOn(Copied(f, overwrite, rows, e, x), x, Touches(s))
  {
    forall k | k in Touches(s) ensures SameOn(Copied(f, overwrite, rows, e, x), x, {k}) {
      forall t | t in rows ensures k !in Touches(t) {
        RowsApart(s, t);
      }
      CopiedFrame(f, overwrite, rows, e, x, k);
    }
  }

  /** Two containers with the same entries are the same. */
  lemma SameEverywhere<K, V>(x: map<K, V>, y: map<K, V>)
    requires forall k: K :: SameOn(x, y, {k})
    ensures x == y
  {
    forall k: K ensures (k in x <==> k in y) && (k in x ==> x[k] == y[k]) {
      assert SameOn(x, y, {k}) && k in {k};
    }
    assert x.Keys == y.Keys;
  }

  /** What these rows leave depends on nothing but which rows they are. */
  lemma OrderIsFree(f: Formats, overwrite: bool, rows: seq<Source>, others: seq<Source>, e: Exif, x: Xmp)
    requires forall s :: s in rows <==> s in others
    ensures Copied(f, overwrite, rows, e, x) == Copied(f, overwrite, others, e, x)
  {
    var y, z := Copied(f, overwrite, rows, e, x), Copied(f, overwrite, others, e, x);
    forall k: Property ensures SameOn(y, z, {k}) {
      if s :| s in rows && k in Touches(s) {
        CopiedAt(f, overwrite, rows, e, x, s);
        CopiedAt(f, overwrite, others, e, x, s);
      } else {
        CopiedFrame(f, overwrite, rows, e, x, k);
        CopiedFrame(f, overwrite, others, e, x, k);
      }
    }
    SameEverywhere(y, z);
  }

  /** Copying a second time changes nothing. */
  lemma CopyTwice(f: Formats, overwrite: bool, rows: seq<Source>, e: Exif, x: Xmp)
    ensures var y := Copied(f, overwrite, rows, e, x); Copied(f, overwrite, rows, e, y) == y
  {
    var y := Copied(f, overwrite, rows, e, x);
    var z := Copied(f, overwrite, rows, e, y);
    forall k: Property ensures SameOn(z, y, {k}) {
      if s :| s in rows && k in Touches(s) {
        var o := OutcomeOf(f, s, e);
        OutcomeFits(f, s, e);
        CopiedAt(f, overwrite, rows, e, x, s);
        CopiedAt(f, overwrite, rows, e, y, s);
        AppliedLocal(overwrite, s, o, y, Applied(overwrite, s, o, x));
        AppliedTwice(overwrite, s, o, x);
      } else {
        CopiedFrame(f, overwrite, rows, e, x, k);
        CopiedFrame(f, overwrite, rows, e, y, k);
      }
    }
    SameEverywhere(z, y);
  }

  // ---------- what the table keeps and loses ----------

  /** The flash tag replaces the fields of a flash structure that is not there as a whole. */
  predicate Replaces(e: Exif, x: Xmp) {
    && Listed(Photo(Flash)) in e && ExifPhoto(Flash) !in x
    && e[Listed(Photo(Flash))].components != [] && e[Listed(Photo(Flash))].number.Some?
  }

  /** What the table leaves at a property is what its row leaves, or what was there. */
  lemma TableAt(f: Formats, overwrite: bool, e: Exif, x: Xmp, k: Property)
    ensures var y := Copied(f, overwrite, TABLE, e, x);
            SameOn(y, if k in Touches(Changer(k)) then Converted(f, overwrite, Changer(k), e, x) else x, {k})
  {
    var s := Changer(k);
    if k in Touches(s) {
      Listing(s);
      CopiedAt(f, overwrite, TABLE, e, x, s);
    } else {
      forall t | t in TABLE ensures k !in Touches(t) {
        if k in Touches(t) {
          TouchedBy(t, k);
        }
      }
      CopiedFrame(f, overwrite, TABLE, e, x, k);
    }
  }

  /** A row that sets a property which is there has another target. */
  lemma KeptAlone(overwrite: bool, s: Source, o: Outcome, x: Xmp, k: Property)
    requires Fits(s, o) && k in Touches(s) && k in x && !overwrite && s != Photo(Flash)
    ensures SameOn(Applied(overwrite, s, o, x), x, {k})
  {
  }

  /** Without overwriting, every property that was there keeps its value, but for the fields of a flash structure: these
      get the values of the flash tag, unless the structure has an entry as a whole. */
  lemma KeptIff(f: Formats, e: Exif, x: Xmp, k: Property)
    requires k in x
    ensures var y := Copied(f, false, TABLE, e, x);
            && k in y
            && (k !in FIELDS ==> y[k] == x[k])
            && (k in FIELDS ==>
                  y[k] == if Replaces(e, x) then FlashFields(e[Listed(Photo(Flash))].number.value)[k] else x[k])
  {
    var s := Changer(k);
    TableAt(f, false, e, x, k);
    if k in Touches(s) && s != Photo(Flash) {
      OutcomeFits(f, s, e);
      KeptAlone(false, s, OutcomeOf(f, s, e), x, k);
    } else if k in FIELDS {
      FieldAlone(f, e, x, k);
    }
  }

  lemma FieldAlone(f: Formats, e: Exif, x: Xmp, k: Property)
    requires k in x && k in FIELDS
    ensures var y, flash := Converted(f, false, Photo(Flash), e, x), Listed(Photo(Flash));
            k in y && y[k] == if Replaces(e, x) then FlashFields(e[flash].number.value)[k] else x[k]
  {
    assert KindOf(Photo(Flash)) == Structure;
  }

  /** The conversions that make room for their target without setting it. */
  predicate Loses(f: Formats, s: Source, e: Exif)
    requires Listed(s) in e
  {
    var v := e[Listed(s)];
    match KindOf(s)
    case Plain | Version | GpsVersion => false
    case Comment => !v.remark.Remark?
    case Array => v.components == [] || v.components[0].text.None?
    case Date => !v.ok || |f.numbers(v.text)| < 6
    case Clock => ClockText(f, e).None?
    case Structure => v.components != []
    case Coordinate => !Fractions(v.components) || RefOf(s) !in e
  }

  lemma LosesIff(f: Formats, s: Source, e: Exif)
    ensures var o := OutcomeOf(f, s, e);
            o.Late? && Target(s) !in o.written <==> Listed(s) in e && Loses(f, s, e)
  {
  }

  /** With overwriting, a property is lost exactly when the tag of its row is there and cannot be converted behind that
      point; the flash structure as a whole is always lost, since only its fields are set. */
  lemma LostIff(f: Formats, e: Exif, x: Xmp, s: Source)
    requires Target(s) in x
    ensures Target(s) !in Copied(f, true, TABLE, e, x) <==> Listed(s) in e && Loses(f, s, e)
  {
    TouchedBy(s, Target(s));
    TableAt(f, true, e, x, Target(s));
    LosesIff(f, s, e);
    assert Target(s) in {Target(s)};
  }
}
