/** The flash tag and the flash structure, `cnvExifFlash` and `cnvXmpFlash`. */
module ConvertFlash {
  import opened Basics
  import opened ConvertTable

  type Xmp = map<Property, seq<string>>

  function Flag(n: nat): string {
    if n == 0 then "False" else "True"
  }

  function Digit(n: nat): string
    requires n < 10
  {
    ['0' + n as char]
  }

  /** The bits of a flash value, as the properties of a structure. */
  function FlashFields(v: nat): Xmp {
    map[FlashPart(Fired) := [Flag(v % 2)], FlashPart(Return) := [Digit(v / 2 % 4)],
        FlashPart(Mode) := [Digit(v / 8 % 4)], FlashPart(Function) := [Flag(v / 32 % 2)],
        FlashPart(RedEyeMode) := [Flag(v / 64 % 2)]]
  }

  /** A field of the structure as a number; 0 if it is missing or unreadable. */
  function Field(number: seq<string> -> Option<nat>, x: Xmp, k: FlashField): nat {
    if FlashPart(k) in x && number(x[FlashPart(k)]).Some? then number(x[FlashPart(k)]).value else 0
  }

  function Pack(fired: nat, returned: nat, mode: nat, noFlash: nat, redEye: nat): nat {
    fired % 2 + returned % 4 * 2 + mode % 4 * 8 + noFlash % 2 * 32 + redEye % 2 * 64
  }

  /** `cnvXmpFlash`: the tag value that the properties stand for. */
  function FlashValue(number: seq<string> -> Option<nat>, x: Xmp): Option<nat> {
    if FlashPart(Fired) !in x then None
    else
      Some(Pack(Field(number, x, Fired), Field(number, x, Return), Field(number, x, Mode), Field(number, x, Function),
                Field(number, x, RedEyeMode)))
  }

  lemma Shift(v: nat, m: nat, n: nat, a: nat, b: nat)
    requires m > 0 && n > 0 && a == v / m && b == a / n
    ensures v == m * n * b + m * (a % n) + v % m
  {
  }

  /** The bits kept are those below the eighth. */
  lemma Bits(v: nat)
    ensures v % 2 + v / 2 % 4 * 2 + v / 8 % 4 * 8 + v / 32 % 2 * 32 + v / 64 % 2 * 64 == v % 128
  {
    Shift(v, 2, 4, v / 2, v / 2 / 4);
    assert v / 8 == v / 2 / 4;
    Shift(v, 8, 4, v / 8, v / 8 / 4);
    assert v / 32 == v / 8 / 4;
    Shift(v, 32, 2, v / 32, v / 32 / 2);
    assert v / 64 == v / 32 / 2;
    Shift(v, 64, 2, v / 64, v / 64 / 2);
    assert v / 128 == v / 64 / 2;
  }

  lemma Packed(v: nat, a: nat, b: nat, c: nat, d: nat, f: nat)
    requires a == v % 2 && b == v / 2 % 4 && c == v / 8 % 4 && d == v / 32 % 2 && f == v / 64 % 2
    ensures Pack(a, b, c, d, f) == v % 128
  {
    Bits(v);
    assert a < 2 && b < 4 && c < 4 && d < 2 && f < 2;
    Small(a, 2);
    Small(b, 4);
    Small(c, 4);
    Small(d, 2);
    Small(f, 2);
  }

  lemma Small(n: nat, m: nat)
    requires n < m
    ensures n % m == n
  {
  }

  /** Numbers are read back from the texts that the conversion writes. */
  ghost predicate ReadsBack(number: seq<string> -> Option<nat>) {
    && number(["False"]) == Some(0) && number(["True"]) == Some(1)
    && forall n | 0 <= n < 10 :: number([Digit(n)]) == Some(n)
  }

  /** A flash value comes back from XMP without the bits above the red-eye mode. */
  lemma FlashRoundTrip(number: seq<string> -> Option<nat>, x: Xmp, v: nat)
    requires ReadsBack(number)
    ensures FlashValue(number, x + FlashFields(v)) == Some(v % 128)
  {
    FieldsRead(number, x, v, v / 2 % 4, v / 8 % 4);
    Packed(v, v % 2, v / 2 % 4, v / 8 % 4, v / 32 % 2, v / 64 % 2);
  }

  lemma FieldsRead(number: seq<string> -> Option<nat>, x: Xmp, v: nat, m: nat, n: nat)
    requires ReadsBack(number) && m == v / 2 % 4 && n == v / 8 % 4
    ensures var y := x + FlashFields(v);
            && FlashPart(Fired) in y && Field(number, y, Fired) == v % 2 && Field(number, y, Return) == m
            && Field(number, y, Mode) == n && Field(number, y, Function) == v / 32 % 2
            && Field(number, y, RedEyeMode) == v / 64 % 2
  {
    assert number([Digit(m)]) == Some(m) && number([Digit(n)]) == Some(n);
  }
}
