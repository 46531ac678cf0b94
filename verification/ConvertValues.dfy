/** What each property holds after a copy, in terms of the tags, row by row of the table. */
module ConvertValues {
  import opened Basics
  import opened ConvertTable
  import opened ConvertFlash
  import opened Convert
  import opened ConvertMove

  /** The property of a row is what that row alone makes of it. */
  lemma AloneAt(f: Formats, overwrite: bool, e: Exif, x: Xmp, s: Source, k: Property)
    requires k in Touches(s)
    ensures SameOn(Copied(f, overwrite, TABLE, e, x), Converted(f, overwrite, s, e, x), {k})
  {
    TouchedBy(s, k);
    TableAt(f, overwrite, e, x, k);
  }

  /** The rows that copy a text, with their properties: all but these have the last name of the tag. */
  predicate TextRow(s: Source, k: Property) {
    match s
    case Image(n) =>
      && !n.DateTime?
      && k == (if n.ImageDescription? then DcDescription
               else if n.Artist? then DcCreator
               else if n.Rating? then XmpRating
               else if n.Copyright? then DcRights
               else Tiff(n))
    case Photo(n) =>
      && k == ExifPhoto(n) && !n.ExifVersion? && !n.FlashpixVersion? && !n.ComponentsConfiguration? && !n.UserComment?
      && !n.DateTimeOriginal? && !n.DateTimeDigitized? && !n.Flash?
    case Gps(n) =>
      && k == ExifGps(n) && !n.GPSVersionID? && !n.GPSLatitude? && !n.GPSLongitude? && !n.GPSTimeStamp?
      && !n.GPSDestLatitude? && !n.GPSDestLongitude?
  }

  /** A text is copied as it is. */
  lemma TextCopied(f: Formats, overwrite: bool, e: Exif, x: Xmp, s: Source, k: Property)
    requires TextRow(s, k) && Listed(s) in e
    ensures var y, v := Copied(f, overwrite, TABLE, e, x), e[Listed(s)];
            if v.ok && (k !in x || overwrite) then k in y && y[k] == [v.text] else SameOn(y, x, {k})
  {
    assert KindOf(s) == Plain && Target(s) == k;
    AloneAt(f, overwrite, e, x, s, k);
  }

  /** A comment is copied if it is one and can be decoded; otherwise the property is lost. */
  lemma CommentCopied(f: Formats, overwrite: bool, e: Exif, x: Xmp)
    requires Listed(Photo(UserComment)) in e
    ensures var y, k := Copied(f, overwrite, TABLE, e, x), ExifPhoto(UserComment);
            var r := e[Listed(Photo(UserComment))].remark;
            if k in x && !overwrite then SameOn(y, x, {k})
            else if r.Remark? then k in y && y[k] == [r.text] else k !in y
  {
    assert KindOf(Photo(UserComment)) == Comment;
    AloneAt(f, overwrite, e, x, Photo(UserComment), ExifPhoto(UserComment));
  }

  lemma {:induction false} ReadableIs(c: seq<Component>, n: nat)
    requires n <= |c| && (forall i | 0 <= i < n :: c[i].text.Some?) && (n == |c| || c[n].text.None?)
    ensures |Readable(c)| == n && forall i | 0 <= i < n :: Readable(c)[i] == c[i].text.value
    decreases n
  {
    if n > 0 {
      ReadableIs(c[1..], n - 1);
      assert forall i | 1 <= i < n :: c[1..][i - 1] == c[i];
    }
  }

  /** An array gets the texts of the components up to the first unreadable one, which is the `n`-th. */
  lemma ArrayCopied(f: Formats, overwrite: bool, e: Exif, x: Xmp, c: seq<Component>, n: nat)
    requires Listed(Photo(ComponentsConfiguration)) in e && c == e[Listed(Photo(ComponentsConfiguration))].components
    requires n <= |c| && (forall i | 0 <= i < n :: c[i].text.Some?) && (n == |c| || c[n].text.None?)
    ensures var y, k := Copied(f, overwrite, TABLE, e, x), ExifPhoto(ComponentsConfiguration);
            if k in x && !overwrite then SameOn(y, x, {k})
            else
              && (k in y <==> n > 0)
              && (n > 0 ==> |y[k]| == n && forall i | 0 <= i < n :: y[k][i] == c[i].text.value)
  {
    assert KindOf(Photo(ComponentsConfiguration)) == Array;
    ReadableIs(c, n);
    AloneAt(f, overwrite, e, x, Photo(ComponentsConfiguration), ExifPhoto(ComponentsConfiguration));
  }

  lemma {:induction false} BytesAre(c: seq<Component>)
    ensures |Bytes(c)| == |c| && forall i | 0 <= i < |c| :: Bytes(c)[i] == (c[i].integer % 256) as char
  {
    if c != [] {
      BytesAre(c[1..]);
    }
  }

  /** A version is a text with one character for each component. */
  lemma VersionCopied(f: Formats, overwrite: bool, e: Exif, x: Xmp, name: PhotoName, c: seq<Component>)
    requires name == ExifVersion || name == FlashpixVersion
    requires Listed(Photo(name)) in e && c == e[Listed(Photo(name))].components
    ensures var y, k := Copied(f, overwrite, TABLE, e, x), ExifPhoto(name);
            if k in x && !overwrite then SameOn(y, x, {k})
            else
              && k in y && |y[k]| == 1 && |y[k][0]| == |c|
              && forall i | 0 <= i < |c| :: y[k][0][i] == (c[i].integer % 256) as char
  {
    assert KindOf(Photo(name)) == Version;
    BytesAre(c);
    AloneAt(f, overwrite, e, x, Photo(name), ExifPhoto(name));
  }

  /** Texts with single points between them. */
  function Joined(parts: seq<string>): string {
    if parts == [] then ""
    else if |parts| == 1 then parts[0]
    else Joined(parts[..|parts| - 1]) + "." + parts[|parts| - 1]
  }

  lemma {:induction false} JoinedFront(parts: seq<string>)
    requires |parts| >= 2
    ensures Joined(parts) == parts[0] + "." + Joined(parts[1..])
    decreases |parts|
  {
    var n := |parts| - 1;
    if n == 1 {
      assert parts[1..] == [parts[1]];
    } else {
      JoinedFront(parts[..n]);
      assert parts[..n][1..] == parts[1..][..n - 1];
      Regroup(parts[0] + ".", Joined(parts[1..n]), "." + parts[n]);
    }
  }

  lemma {:induction false} PointedAre(f: Formats, c: seq<Component>, parts: seq<string>)
    requires |parts| == |c| && forall i | 0 <= i < |c| :: parts[i] == f.decimal(c[i].integer)
    ensures Pointed(f, c) == Joined(parts)
    decreases |c|
  {
    if |c| > 1 {
      PointedAre(f, c[1..], parts[1..]);
      JoinedFront(parts);
    }
  }

  /** A GPS version is its decimals with points between. */
  lemma GpsVersionCopied(f: Formats, overwrite: bool, e: Exif, x: Xmp, c: seq<Component>, parts: seq<string>)
    requires Listed(Gps(GPSVersionID)) in e && c == e[Listed(Gps(GPSVersionID))].components
    requires |parts| == |c| && forall i | 0 <= i < |c| :: parts[i] == f.decimal(c[i].integer)
    ensures var y, k := Copied(f, overwrite, TABLE, e, x), ExifGps(GPSVersionID);
            if k in x && !overwrite then SameOn(y, x, {k}) else k in y && y[k] == [Joined(parts)]
  {
    PointedAre(f, c, parts);
    assert KindOf(Gps(GPSVersionID)) == GpsVersion;
    assert OutcomeOf(f, Gps(GPSVersionID), e) == Late(map[ExifGps(GPSVersionID) := [Joined(parts)]], true);
    AloneAt(f, overwrite, e, x, Gps(GPSVersionID), ExifGps(GPSVersionID));
  }

  /** The rows of dates, with their properties and the tags of their fractions. */
  predicate DateRow(s: Source, k: Property, sub: Tag) {
    || (s == Image(DateTime) && k == XmpModifyDate && sub == SubSecTime)
    || (s == Photo(DateTimeOriginal) && k == PhotoshopDateCreated && sub == SubSecTimeOriginal)
    || (s == Photo(DateTimeDigitized) && k == XmpCreateDate && sub == SubSecTimeDigitized)
  }

  /** The first characters of a text, or all of it. */
  predicate Starts(s: string, all: string, n: nat) {
    s == if |all| <= n then all else all[..n]
  }

  /** A date is copied with its time and its fraction, in 29 characters at most. */
  lemma DateCopied(f: Formats, overwrite: bool, e: Exif, x: Xmp, s: Source, k: Property, sub: Tag, fraction: string)
    requires DateRow(s, k, sub) && Listed(s) in e
    requires if sub in e && e[sub].ascii && e[sub].text != "" && f.whole(e[sub].text)
             then Starts(fraction, "." + e[sub].text, 10) else fraction == ""
    ensures var y, v := Copied(f, overwrite, TABLE, e, x), e[Listed(s)];
            var n := f.numbers(v.text);
            if k in x && !overwrite then SameOn(y, x, {k})
            else
              && (k in y <==> v.ok && |n| >= 6)
              && (k in y ==> |y[k]| == 1 && Starts(y[k][0], f.date(n[..3]) + "T" + f.time(n[3..6]) + fraction, 29))
  {
    DateOutcome(f, e, s, k, sub, fraction);
    AloneAt(f, overwrite, e, x, s, k);
  }

  lemma DateOutcome(f: Formats, e: Exif, s: Source, k: Property, sub: Tag, fraction: string)
    requires DateRow(s, k, sub) && Listed(s) in e
    requires if sub in e && e[sub].ascii && e[sub].text != "" && f.whole(e[sub].text)
             then Starts(fraction, "." + e[sub].text, 10) else fraction == ""
    ensures var v, o := e[Listed(s)], OutcomeOf(f, s, e);
            var n := f.numbers(v.text);
            && Target(s) == k && o.Late?
            && (v.ok && |n| >= 6 ==>
                  o.written == map[k := [Cut(f.date(n[..3]) + "T" + f.time(n[3..6]) + fraction, 29)]])
            && (!v.ok || |n| < 6 ==> o.written == map[])
  {
    assert KindOf(s) == Date && SubSecOf(s) == sub;
    assert fraction == Cut(Fraction(f, sub, e), 10);
  }

  /** The GPS time stamp is copied with the day of the GPS date stamp, or else of the original date, or else of the
      digitized one. */
  lemma ClockCopied(f: Formats, overwrite: bool, e: Exif, x: Xmp, c: seq<Component>, day: Option<Tag>, fraction: string)
    requires Listed(Gps(GPSTimeStamp)) in e && c == e[Listed(Gps(GPSTimeStamp))].components
    requires day == if GPSDateStamp in e then Some(GPSDateStamp)
                    else if Listed(Photo(DateTimeOriginal)) in e then Some(Listed(Photo(DateTimeOriginal)))
                    else if Listed(Photo(DateTimeDigitized)) in e then Some(Listed(Photo(DateTimeDigitized)))
                    else None
    requires f.clock(c).Some? ==> Starts(fraction, f.clock(c).value.fraction, 10)
    ensures var y, k := Copied(f, overwrite, TABLE, e, x), ExifGps(GPSTimeStamp);
            if k in x && !overwrite then SameOn(y, x, {k})
            else
              && (k in y <==>
                    && |c| == 3 && (forall i | 0 <= i < 3 :: c[i].denominator != 0) && f.clock(c).Some?
                    && day.Some? && |f.numbers(e[day.value].text)| >= 3)
              && (k in y ==>
                    var date := f.date(f.numbers(e[day.value].text)[..3]);
                    |y[k]| == 1 && Starts(y[k][0], date + "T" + f.clock(c).value.time + fraction, 29))
  {
    assert KindOf(CLOCK) == Clock && day == DayTag(e);
    assert f.clock(c).Some? ==> fraction == Cut(f.clock(c).value.fraction, 10);
    AloneAt(f, overwrite, e, x, CLOCK, ExifGps(GPSTimeStamp));
  }

  /** The coordinates with their reference tags. */
  predicate CoordinateRow(name: GpsName, ref: Tag) {
    || (name == GPSLatitude && ref == GPSLatitudeRef)
    || (name == GPSLongitude && ref == GPSLongitudeRef)
    || (name == GPSDestLatitude && ref == GPSDestLatitudeRef)
    || (name == GPSDestLongitude && ref == GPSDestLongitudeRef)
  }

  /** A coordinate is copied with its own reference. */
  lemma CoordinateCopied(f: Formats, overwrite: bool, e: Exif, x: Xmp, name: GpsName, ref: Tag, c: seq<Component>)
    requires CoordinateRow(name, ref) && Listed(Gps(name)) in e && c == e[Listed(Gps(name))].components
    ensures var y, k := Copied(f, overwrite, TABLE, e, x), ExifGps(name);
            if k in x && !overwrite then SameOn(y, x, {k})
            else
              && (k in y <==> |c| == 3 && (forall i | 0 <= i < 3 :: c[i].denominator != 0) && ref in e)
              && (k in y ==> y[k] == [f.coordinate(c, e[ref].text)])
  {
    CoordinateOutcome(f, e, name, ref, c);
    AloneAt(f, overwrite, e, x, Gps(name), ExifGps(name));
  }

  lemma CoordinateOutcome(f: Formats, e: Exif, name: GpsName, ref: Tag, c: seq<Component>)
    requires CoordinateRow(name, ref) && Listed(Gps(name)) in e && c == e[Listed(Gps(name))].components
    ensures var o := OutcomeOf(f, Gps(name), e);
            o == if |c| == 3 && (forall i | 0 <= i < 3 :: c[i].denominator != 0) && ref in e
                 then Late(map[ExifGps(name) := [f.coordinate(c, e[ref].text)]], true) else Late(map[], false)
  {
    assert KindOf(Gps(name)) == Coordinate && RefOf(Gps(name)) == ref;
  }

  /** What a field of the flash structure says of a flash value: one bit, two, two, one bit behind another, one more. */
  function FieldText(k: FlashField, v: nat): string {
    match k
    case Fired => if v % 2 == 1 then "True" else "False"
    case Return => ["0123"[v / 2 % 4]]
    case Mode => ["0123"[v / 8 % 4]]
    case Function => if v / 32 % 2 == 1 then "True" else "False"
    case RedEyeMode => if v / 64 % 2 == 1 then "True" else "False"
  }

  /** The flash value is taken apart, and the structure has no entry as a whole. */
  lemma FlashCopied(f: Formats, overwrite: bool, e: Exif, x: Xmp, v: nat, k: FlashField)
    requires Listed(Photo(Flash)) in e && e[Listed(Photo(Flash))].components != []
    requires e[Listed(Photo(Flash))].number == Some(v) && (ExifPhoto(Flash) !in x || overwrite)
    ensures var y := Copied(f, overwrite, TABLE, e, x);
            ExifPhoto(Flash) !in y && FlashPart(k) in y && y[FlashPart(k)] == [FieldText(k, v)]
  {
    FlashAlone(f, overwrite, e, x, v);
    FieldIs(k, v);
    AloneAt(f, overwrite, e, x, Photo(Flash), ExifPhoto(Flash));
    AloneAt(f, overwrite, e, x, Photo(Flash), FlashPart(k));
  }

  lemma FieldIs(k: FlashField, v: nat)
    ensures FlashPart(k) in FlashFields(v) && FlashFields(v)[FlashPart(k)] == [FieldText(k, v)]
    ensures FlashPart(k) in Touches(Photo(Flash)) && ExifPhoto(Flash) !in FlashFields(v)
  {
    DigitIs(v / 2 % 4);
    DigitIs(v / 8 % 4);
  }

  lemma FlashAlone(f: Formats, overwrite: bool, e: Exif, x: Xmp, v: nat)
    requires Listed(Photo(Flash)) in e && e[Listed(Photo(Flash))].components != []
    requires e[Listed(Photo(Flash))].number == Some(v) && (ExifPhoto(Flash) !in x || overwrite)
    ensures Converted(f, overwrite, Photo(Flash), e, x) == Without(x, ExifPhoto(Flash)) + FlashFields(v)
  {
    assert KindOf(Photo(Flash)) == Structure;
  }

  lemma DigitIs(n: nat)
    requires n < 4
    ensures ["0123"[n]] == Digit(n)
  {
  }

  /** Without its tag, and without room, a property stays as it is. */
  lemma NotCopied(f: Formats, overwrite: bool, e: Exif, x: Xmp, s: Source, k: Property)
    requires k in Touches(s) && (Listed(s) !in e || (Target(s) in x && !overwrite))
    ensures SameOn(Copied(f, overwrite, TABLE, e, x), x, {k})
  {
    AloneAt(f, overwrite, e, x, s, k);
  }

  // ---------- moving ----------

  /** A move gives the property of every row but that of the GPS time stamp the value that a copy gives it. */
  lemma MovedLikeCopied(f: Formats, overwrite: bool, e: Exif, x: Xmp, s: Source, k: Property)
    requires s != Gps(GPSTimeStamp) && k in Touches(s)
    ensures SameOn(Moved(f, overwrite, TABLE, e, x).1, Copied(f, overwrite, TABLE, e, x), {k})
  {
    MovedTable(f, overwrite, e, x, s);
    AloneAt(f, overwrite, e, x, s, k);
  }

  /** The tags that are left keep their values. */
  lemma {:induction false} LeftSame(f: Formats, overwrite: bool, rows: seq<Source>, e: Exif, x: Xmp)
    ensures var left := Moved(f, overwrite, rows, e, x).0;
            left.Keys <= e.Keys && forall t | t in left :: left[t] == e[t]
    decreases |rows|
  {
    if rows != [] {
      var b := Step(overwrite, rows[0], OutcomeOf(f, rows[0], e), (e, x));
      LeftSame(f, overwrite, rows[1..], b.0, b.1);
    }
  }

  /** A tag is erased in a move exactly when its row has room for the property and its conversion does not fail. */
  lemma ErasedIff(f: Formats, overwrite: bool, e: Exif, x: Xmp, s: Source)
    requires Listed(s) in e && s != Gps(GPSTimeStamp)
    ensures var o := OutcomeOf(f, s, e);
            Listed(s) !in Moved(f, overwrite, TABLE, e, x).0
            <==> !(Target(s) in x && !overwrite) && o.Late? && o.taken
  {
    MovedTable(f, overwrite, e, x, s);
    assert Listed(s) in Takes(s);
  }

  /** A text is erased if it is one. */
  lemma TextErasedIff(f: Formats, overwrite: bool, e: Exif, x: Xmp, s: Source, k: Property)
    requires TextRow(s, k) && Listed(s) in e
    ensures Listed(s) !in Moved(f, overwrite, TABLE, e, x).0 <==> (k !in x || overwrite) && e[Listed(s)].ok
  {
    assert KindOf(s) == Plain && Target(s) == k;
    ErasedIff(f, overwrite, e, x, s);
  }

  /** A comment is erased even if it cannot be decoded. */
  lemma CommentErasedIff(f: Formats, overwrite: bool, e: Exif, x: Xmp)
    requires Listed(Photo(UserComment)) in e
    ensures Listed(Photo(UserComment)) !in Moved(f, overwrite, TABLE, e, x).0
       <==> (ExifPhoto(UserComment) !in x || overwrite) && !e[Listed(Photo(UserComment))].remark.NoRemark?
  {
    assert KindOf(Photo(UserComment)) == Comment;
    ErasedIff(f, overwrite, e, x, Photo(UserComment));
  }

  /** An array is erased only if all its components can be read. */
  lemma ArrayErasedIff(f: Formats, overwrite: bool, e: Exif, x: Xmp, c: seq<Component>, n: nat)
    requires Listed(Photo(ComponentsConfiguration)) in e && c == e[Listed(Photo(ComponentsConfiguration))].components
    requires n <= |c| && (forall i | 0 <= i < n :: c[i].text.Some?) && (n == |c| || c[n].text.None?)
    ensures Listed(Photo(ComponentsConfiguration)) !in Moved(f, overwrite, TABLE, e, x).0
       <==> (ExifPhoto(ComponentsConfiguration) !in x || overwrite) && n == |c|
  {
    assert KindOf(Photo(ComponentsConfiguration)) == Array;
    ReadableIs(c, n);
    ErasedIff(f, overwrite, e, x, Photo(ComponentsConfiguration));
  }

  /** Versions are always erased where there is room. */
  lemma VersionErasedIff(f: Formats, overwrite: bool, e: Exif, x: Xmp, s: Source, k: Property)
    requires Listed(s) in e
    requires || (s == Photo(ExifVersion) && k == ExifPhoto(ExifVersion))
             || (s == Photo(FlashpixVersion) && k == ExifPhoto(FlashpixVersion))
             || (s == Gps(GPSVersionID) && k == ExifGps(GPSVersionID))
    ensures Listed(s) !in Moved(f, overwrite, TABLE, e, x).0 <==> k !in x || overwrite
  {
    assert (KindOf(s) == Version || KindOf(s) == GpsVersion) && Target(s) == k;
    ErasedIff(f, overwrite, e, x, s);
  }

  /** The flash tag is erased if it has a value. */
  lemma FlashErasedIff(f: Formats, overwrite: bool, e: Exif, x: Xmp)
    requires Listed(Photo(Flash)) in e
    ensures var v := e[Listed(Photo(Flash))];
            Listed(Photo(Flash)) !in Moved(f, overwrite, TABLE, e, x).0
            <==> (ExifPhoto(Flash) !in x || overwrite) && v.components != [] && v.number.Some?
  {
    assert KindOf(Photo(Flash)) == Structure;
    ErasedIff(f, overwrite, e, x, Photo(Flash));
  }

  /** A coordinate is erased together with its reference, and neither without the other. */
  lemma CoordinateErasedIff(f: Formats, overwrite: bool, e: Exif, x: Xmp, name: GpsName, ref: Tag, c: seq<Component>)
    requires CoordinateRow(name, ref) && Listed(Gps(name)) in e && c == e[Listed(Gps(name))].components
    ensures var left := Moved(f, overwrite, TABLE, e, x).0;
            var taken := && (ExifGps(name) !in x || overwrite) && ref in e
                         && |c| == 3 && forall i | 0 <= i < 3 :: c[i].denominator != 0;
            && (Listed(Gps(name)) !in left <==> taken)
            && (ref in left <==> ref in e && !taken)
  {
    CoordinateOutcome(f, e, name, ref, c);
    MovedTable(f, overwrite, e, x, Gps(name));
    CoordinateTakes(name, ref);
  }

  lemma CoordinateTakes(name: GpsName, ref: Tag)
    requires CoordinateRow(name, ref)
    ensures Takes(Gps(name)) == {Listed(Gps(name)), ref} && Target(Gps(name)) == ExifGps(name)
    ensures Gps(name) != CLOCK
  {
    assert KindOf(Gps(name)) == Coordinate && RefOf(Gps(name)) == ref;
  }
}
