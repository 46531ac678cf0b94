/** The rows between Exif tags and XMP properties in the conversion table, as data. */
module ConvertTable {
  // ---------- tags and properties ----------

  datatype ImageName = ImageWidth | ImageLength | BitsPerSample | Compression | PhotometricInterpretation |
    Orientation | SamplesPerPixel | PlanarConfiguration | YCbCrSubSampling | YCbCrPositioning | XResolution |
    YResolution | ResolutionUnit | TransferFunction | WhitePoint | PrimaryChromaticities | YCbCrCoefficients |
    ReferenceBlackWhite | DateTime | ImageDescription | Make | Model | Software | Artist | Rating | Copyright

  datatype PhotoName = ExifVersion | FlashpixVersion | ColorSpace | ComponentsConfiguration | CompressedBitsPerPixel |
    PixelXDimension | PixelYDimension | UserComment | RelatedSoundFile | DateTimeOriginal | DateTimeDigitized |
    ExposureTime | FNumber | ExposureProgram | SpectralSensitivity | ISOSpeedRatings | OECF | ShutterSpeedValue |
    ApertureValue | BrightnessValue | ExposureBiasValue | MaxApertureValue | SubjectDistance | MeteringMode |
    LightSource | Flash | FocalLength | SubjectArea | FlashEnergy | SpatialFrequencyResponse | FocalPlaneXResolution |
    FocalPlaneYResolution | FocalPlaneResolutionUnit | SubjectLocation | ExposureIndex | SensingMethod | FileSource |
    SceneType | CFAPattern | CustomRendered | ExposureMode | WhiteBalance | DigitalZoomRatio | FocalLengthIn35mmFilm |
    SceneCaptureType | GainControl | Contrast | Saturation | Sharpness | DeviceSettingDescription |
    SubjectDistanceRange | ImageUniqueID

  datatype GpsName = GPSVersionID | GPSLatitude | GPSLongitude | GPSAltitudeRef | GPSAltitude | GPSTimeStamp |
    GPSSatellites | GPSStatus | GPSMeasureMode | GPSDOP | GPSSpeedRef | GPSSpeed | GPSTrackRef | GPSTrack |
    GPSImgDirectionRef | GPSImgDirection | GPSMapDatum | GPSDestLatitude | GPSDestLongitude | GPSDestBearingRef |
    GPSDestBearing | GPSDestDistanceRef | GPSDestDistance | GPSProcessingMethod | GPSAreaInformation | GPSDifferential

  /** The tags with a row of their own, by their group: `Exif.Image`, `Exif.Photo` or `Exif.GPSInfo`. */
  datatype Source = Image(image: ImageName) | Photo(photo: PhotoName) | Gps(gps: GpsName)

  /** All tags: some have no row, but are looked at by the rows of others. */
  datatype Tag = Listed(source: Source) | SubSecTime | SubSecTimeOriginal | SubSecTimeDigitized | GPSDateStamp |
    GPSLatitudeRef | GPSLongitudeRef | GPSDestLatitudeRef | GPSDestLongitudeRef | Unlisted(key: string)

  datatype FlashField = Fired | Return | Mode | Function | RedEyeMode

  /** The properties: most have the last name of their tag, in `Xmp.tiff` or in `Xmp.exif`. */
  datatype Property = Tiff(image: ImageName) | ExifPhoto(photo: PhotoName) | ExifGps(gps: GpsName) | XmpModifyDate |
    DcDescription | DcCreator | XmpRating | DcRights | PhotoshopDateCreated | XmpCreateDate |
    FlashPart(field: FlashField) | Foreign(key: string)

  // ---------- one row ----------

  /** The functions that convert: `cnvExifValue` and those with a name like the kind, where `cnvExifDate` does two
      things. */
  datatype Kind = Plain | Comment | Array | Date | Clock | Version | GpsVersion | Structure | Coordinate

  const CREATED: Source := Photo(DateTimeOriginal)
  const DIGITIZED: Source := Photo(DateTimeDigitized)
  const CLOCK: Source := Gps(GPSTimeStamp)

  function KindOf(s: Source): Kind {
    if s == Image(DateTime) || s == CREATED || s == DIGITIZED then Date
    else if s == CLOCK then Clock
    else if s == Photo(ExifVersion) || s == Photo(FlashpixVersion) then Version
    else if s == Photo(ComponentsConfiguration) then Array
    else if s == Photo(UserComment) then Comment
    else if s == Photo(Flash) then Structure
    else if s == Gps(GPSVersionID) then GpsVersion
    else if s.Gps? && (s.gps.GPSLatitude? || s.gps.GPSLongitude? || s.gps.GPSDestLatitude? || s.gps.GPSDestLongitude?)
    then Coordinate
    else Plain
  }

  function Target(s: Source): Property {
    match s
    case Image(name) =>
      if name.DateTime? then XmpModifyDate
      else if name.ImageDescription? then DcDescription
      else if name.Artist? then DcCreator
      else if name.Rating? then XmpRating
      else if name.Copyright? then DcRights
      else Tiff(name)
    case Photo(name) =>
      if name.DateTimeOriginal? then PhotoshopDateCreated
      else if name.DateTimeDigitized? then XmpCreateDate
      else ExifPhoto(name)
    case Gps(name) => ExifGps(name)
  }

  /** The fields of the flash structure. */
  const FIELDS: set<Property> := {FlashPart(Fired), FlashPart(Return), FlashPart(Mode), FlashPart(Function),
    FlashPart(RedEyeMode)}

  /** The properties that a row may change. */
  function Touches(s: Source): set<Property> {
    {Target(s)} + if s == Photo(Flash) then FIELDS else {}
  }

  /** The tag with the fraction of the second. */
  function SubSecOf(s: Source): Tag
    requires KindOf(s) == Date
  {
    if s == Image(DateTime) then SubSecTime
    else if s == CREATED then SubSecTimeOriginal
    else SubSecTimeDigitized
  }

  /** The tag with the side of the equator or of the prime meridian. */
  function RefOf(s: Source): Tag
    requires KindOf(s) == Coordinate
  {
    match s.gps
    case GPSLatitude => GPSLatitudeRef
    case GPSLongitude => GPSLongitudeRef
    case GPSDestLatitude => GPSDestLatitudeRef
    case GPSDestLongitude => GPSDestLongitudeRef
  }

  /** The tags that the conversion of a row erases when it moves them. */
  function Takes(s: Source): set<Tag> {
    {Listed(s)} + match KindOf(s)
                  case Date => {SubSecOf(s)}
                  case Coordinate => {RefOf(s)}
                  case _ => {}
  }

  /** The tags that decide what the row does. */
  function Looks(s: Source): set<Tag> {
    Takes(s) + if s == CLOCK then {GPSDateStamp, Listed(CREATED), Listed(DIGITIZED)} else {}
  }

  // ---------- no two rows meet ----------

  /** The row that may change a property. */
  function Changer(k: Property): Source {
    match k
    case Tiff(name) => Image(name)
    case ExifPhoto(name) => Photo(name)
    case ExifGps(name) => Gps(name)
    case XmpModifyDate => Image(DateTime)
    case DcDescription => Image(ImageDescription)
    case DcCreator => Image(Artist)
    case XmpRating => Image(ImageName.Rating)
    case DcRights => Image(Copyright)
    case PhotoshopDateCreated => CREATED
    case XmpCreateDate => DIGITIZED
    case _ => Photo(Flash)
  }

  lemma TouchedBy(s: Source, k: Property)
    requires k in Touches(s)
    ensures s == Changer(k)
  {
  }

  /** The row that may take a tag. */
  function Taker(t: Tag): Source {
    match t
    case Listed(s) => s
    case SubSecTime => Image(DateTime)
    case SubSecTimeOriginal => CREATED
    case SubSecTimeDigitized => DIGITIZED
    case GPSLatitudeRef => Gps(GPSLatitude)
    case GPSLongitudeRef => Gps(GPSLongitude)
    case GPSDestLatitudeRef => Gps(GPSDestLatitude)
    case _ => Gps(GPSDestLongitude)
  }

  lemma TakenBy(s: Source, t: Tag)
    requires t in Takes(s)
    ensures s == Taker(t)
  {
  }

  /** Different rows change different properties, and take different tags. */
  lemma RowsApart(s: Source, t: Source)
    requires s != t
    ensures Touches(s) !! Touches(t) && Takes(s) !! Takes(t)
  {
    forall k | k in Touches(s) && k in Touches(t) ensures false {
      TouchedBy(s, k);
      TouchedBy(t, k);
    }
    forall k | k in Takes(s) && k in Takes(t) ensures false {
      TakenBy(s, k);
      TakenBy(t, k);
    }
  }

  // ---------- all rows ----------

  const IMAGE: seq<ImageName> := [ImageWidth, ImageLength, BitsPerSample, Compression, PhotometricInterpretation,
    Orientation, SamplesPerPixel, PlanarConfiguration, YCbCrSubSampling, YCbCrPositioning, XResolution, YResolution,
    ResolutionUnit, TransferFunction, WhitePoint, PrimaryChromaticities, YCbCrCoefficients, ReferenceBlackWhite,
    DateTime, ImageDescription, Make, Model, Software, Artist, Rating, Copyright]

  const PHOTO: seq<PhotoName> := [ExifVersion, FlashpixVersion, ColorSpace, ComponentsConfiguration,
    CompressedBitsPerPixel, PixelXDimension, PixelYDimension, UserComment, RelatedSoundFile, DateTimeOriginal,
    DateTimeDigitized, ExposureTime, FNumber, ExposureProgram, SpectralSensitivity, ISOSpeedRatings, OECF,
    ShutterSpeedValue, ApertureValue, BrightnessValue, ExposureBiasValue, MaxApertureValue, SubjectDistance,
    MeteringMode, LightSource]
    + [Flash, FocalLength, SubjectArea, FlashEnergy, SpatialFrequencyResponse,
    FocalPlaneXResolution, FocalPlaneYResolution, FocalPlaneResolutionUnit, SubjectLocation, ExposureIndex,
    SensingMethod, FileSource, SceneType, CFAPattern, CustomRendered, ExposureMode, WhiteBalance, DigitalZoomRatio,
    FocalLengthIn35mmFilm, SceneCaptureType, GainControl, Contrast, Saturation, Sharpness, DeviceSettingDescription,
    SubjectDistanceRange, ImageUniqueID]

  const GPS: seq<GpsName> := [GPSVersionID, GPSLatitude, GPSLongitude, GPSAltitudeRef, GPSAltitude]

  const GPS_REST: seq<GpsName> := [GPSSatellites, GPSStatus, GPSMeasureMode, GPSDOP, GPSSpeedRef, GPSSpeed,
    GPSTrackRef, GPSTrack, GPSImgDirectionRef, GPSImgDirection, GPSMapDatum, GPSDestLatitude, GPSDestLongitude,
    GPSDestBearingRef, GPSDestBearing, GPSDestDistanceRef, GPSDestDistance, GPSProcessingMethod, GPSAreaInformation,
    GPSDifferential]

  function GpsRows(names: seq<GpsName>): seq<Source> {
    seq(|names|, i requires 0 <= i < |names| => Gps(names[i]))
  }

  const IMAGE_ROWS: seq<Source> := seq(|IMAGE|, i requires 0 <= i < |IMAGE| => Image(IMAGE[i]))
  const PHOTO_ROWS: seq<Source> := seq(|PHOTO|, i requires 0 <= i < |PHOTO| => Photo(PHOTO[i]))
  const GPS_ROWS: seq<Source> := GpsRows(GPS)

  /** The rows before that of the GPS time stamp, and those behind it. */
  const BEFORE: seq<Source> := IMAGE_ROWS + PHOTO_ROWS + GPS_ROWS
  const BEHIND: seq<Source> := GpsRows(GPS_REST)

  /** The rows of the table, in its order. */
  const TABLE: seq<Source> := BEFORE + [CLOCK] + BEHIND

  lemma ClockApart()
    ensures CLOCK !in BEFORE && CLOCK !in BEHIND
  {
    assert forall i | 0 <= i < |GPS| :: GPS[i] != GPSTimeStamp;
    assert forall i | 0 <= i < |GPS_REST| :: GPS_REST[i] != GPSTimeStamp;
  }

  /** The dates that the GPS time stamp looks at come before it. */
  lemma DatesBefore()
    ensures CREATED in BEFORE && DIGITIZED in BEFORE
  {
    assert PHOTO[9] == DateTimeOriginal && PHOTO[10] == DateTimeDigitized;
    assert BEFORE[|IMAGE| + 9] == CREATED && BEFORE[|IMAGE| + 10] == DIGITIZED;
  }

  lemma ImageListed(name: ImageName)
    ensures Image(name) in IMAGE_ROWS
  {
    assert name in IMAGE;
    var i :| 0 <= i < |IMAGE| && IMAGE[i] == name;
    assert IMAGE_ROWS[i] == Image(name);
  }

  lemma PhotoListed(name: PhotoName)
    ensures Photo(name) in PHOTO_ROWS
  {
    assert name in PHOTO;
    var i :| 0 <= i < |PHOTO| && PHOTO[i] == name;
    assert PHOTO_ROWS[i] == Photo(name);
  }

  lemma GpsRow(names: seq<GpsName>, name: GpsName)
    requires name in names
    ensures Gps(name) in GpsRows(names)
  {
    var i :| 0 <= i < |names| && names[i] == name;
    assert GpsRows(names)[i] == Gps(name);
  }

  lemma GpsListed(name: GpsName)
    ensures Gps(name) in GPS_ROWS || Gps(name) == CLOCK || Gps(name) in BEHIND
  {
    assert name == GPSTimeStamp || name in GPS || name in GPS_REST;
    if name in GPS {
      GpsRow(GPS, name);
    } else if name in GPS_REST {
      GpsRow(GPS_REST, name);
    }
  }

  /** Every tag that has a row is in the table. */
  lemma Listing(s: Source)
    ensures s in TABLE
  {
    match s
    case Image(name) => ImageListed(name);
    case Photo(name) => PhotoListed(name);
    case Gps(name) => GpsListed(name);
  }
}
