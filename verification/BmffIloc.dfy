/** The item location box: section 8.11.3 of ISO/IEC 14496-12, as `boxHandler` reads it. */
module BmffIloc {
  import opened Basics
  import opened Bytes
  import opened BmffBoxes

  const UNKNOWN_ID: nat := 0xffff

  datatype Iloc = Iloc(id: nat, start: nat, length: nat)

  /** The item whose entry is the `step` bytes at `at`. */
  function ItemAt(data: seq<byte>, version: nat, at: nat, step: nat): Iloc
    requires step >= 12 && at + step <= |data|
  {
    var id := if version > 2 then U32(data, at) else U16(data, at);
    var start := if step == 14 || step == 16 then U32(data, at + step - 8)
                 else if step == 18 then U32(data, at + 4) else 0;
    Iloc(id, start, U32(data, at + step - 4))
  }

  predicate Recordable(i: Iloc) {
    i.start != 0 && i.length != 0 && i.id != UNKNOWN_ID
  }

  function Recorded(ilocs: map<nat, Iloc>, i: Iloc): map<nat, Iloc> {
    if Recordable(i) then ilocs[i.id := i] else ilocs
  }

  /** The table after `n` entries: of entries with one ID, the last one counts. */
  function Table(ilocs: map<nat, Iloc>, data: seq<byte>, version: nat, base: nat, step: nat, n: nat): map<nat, Iloc>
    requires step >= 12 && base + n * step <= |data|
  {
    if n == 0 then ilocs
    else
      EntryInside(base, step, n);
      Recorded(Table(ilocs, data, version, base, step, n - 1), ItemAt(data, version, base + (n - 1) * step, step))
  }

  lemma EntryInside(base: nat, step: nat, n: nat)
    requires n > 0
    ensures 0 <= (n - 1) * step && base + (n - 1) * step + step == base + n * step
  {
  }

  /** The size of the entries, when the box length divides into them; otherwise the entries are not read. */
  function Step(boxLength: nat, count: nat, sizes: byte): (s: Option<nat>)
    ensures s.Some? ==> count > 0 && s.value * count == boxLength - 16 && s.value >= 12
  {
    if count != 0 && count < boxLength / 14 && sizes / 16 == 4 && sizes % 16 == 4 && (boxLength - 16) % count == 0 then
      StepSize(boxLength, count);
      Some((boxLength - 16) / count)
    else None
  }

  lemma StepSize(boxLength: nat, count: nat)
    requires 0 < count < boxLength / 14 && (boxLength - 16) % count == 0
    ensures boxLength >= 28 && (boxLength - 16) / count * count == boxLength - 16 && (boxLength - 16) / count >= 12
  {
    var q := (boxLength - 16) / count;
    assert boxLength - 16 == count * q + (boxLength - 16) % count;
    assert boxLength >= 14 * (count + 1);
    assert count * q >= 14 * count - 2;
    SmallFactor(count, q);
  }

  lemma SmallFactor(count: nat, q: int)
    ensures q < 12 ==> count * q <= count * 11
  {
    if q < 12 {
      assert count * 11 == count * q + count * (11 - q);
    }
  }

  /** The entries fill the payload behind the counts only in versions 0 and 1, behind a header of eight bytes. */
  lemma EntriesFitIff(boxLength: nat, header: nat, version: nat, base: nat, step: nat, count: nat)
    requires (header == 8 || header == 16) && base == (if version < 2 then 8 else 10)
    requires step >= 12 && count > 0 && step * count == boxLength - 16
    ensures base + count * step <= boxLength - header <==> version < 2 && header == 8
    ensures base + (count - 1) * step <= boxLength - header
  {
  }

  datatype Result = Read(ilocs: map<nat, Iloc>) | Corrupt

  /** The `iloc` case: `data` is the payload of a box of `boxLength` bytes with a header of `header` bytes. */
  method ReadItems(data: seq<byte>, boxLength: nat, header: nat, ilocs: map<nat, Iloc>) returns (r: Result)
    requires (header == 8 || header == 16) && |data| == boxLength - header
    ensures |data| < 8 ==> r == Corrupt
    ensures 8 <= |data| < 10 ==> r == if data[0] < 2 then Read(ilocs) else Corrupt
    ensures |data| >= 10 ==>
              var version := data[0] as int;
              var count := if version < 2 then U16(data, 6) else U32(data, 6);
              var step := Step(boxLength, count, data[4]);
              r == if step.None? then Read(ilocs)
                   else if version < 2 && header == 8 then
                     EntriesFitIff(boxLength, header, version, 8, step.value, count);
                     Read(Table(ilocs, data, version, 8, step.value, count))
                   else Corrupt
  {
    if |data| < 4 {
      return Corrupt;
    }
    var version := data[0] as int;
    var skip := 4;
    if |data| - skip < 2 {
      return Corrupt;
    }
    var sizes := data[skip];
    skip := skip + 2;
    if |data| - skip < (if version < 2 then 2 else 4) {
      return Corrupt;
    }
    var count := if version < 2 then U16(data, skip) else U32(data, skip);
    skip := skip + if version < 2 then 2 else 4;
    var step := Step(boxLength, count, sizes);
    if step.None? {
      return Read(ilocs);
    }
    r := ReadEntries(data, boxLength, header, version, skip, step.value, count, ilocs);
  }

  /** The loop over the entries. */
  method ReadEntries(data: seq<byte>, ghost boxLength: nat, ghost header: nat, version: nat, base: nat, step: nat,
                     count: nat, ilocs: map<nat, Iloc>)
    returns (r: Result)
    requires (header == 8 || header == 16) && |data| == boxLength - header
    requires base == (if version < 2 then 8 else 10) && base <= |data|
    requires step >= 12 && count > 0 && step * count == boxLength - 16
    ensures !(version < 2 && header == 8) ==> r == Corrupt
    ensures version < 2 && header == 8 ==>
              base + count * step <= |data| && r == Read(Table(ilocs, data, version, base, step, count))
  {
    EntriesFitIff(boxLength, header, version, base, step, count);
    var table := ilocs;
    var i := 0;
    while i < count
      invariant i <= count && SoFar(ilocs, data, version, base, step, i, table)
    {
      var skip := base + i * step;
      if |data| - skip < (if version > 2 then 4 else 2) || |data| - skip < step {
        EntryTooShort(base, step, i, count, skip, |data|);
        return Corrupt;
      }
      EntryRead(ilocs, data, version, base, step, i, skip, table);
      table := Recorded(table, ItemAt(data, version, skip, step));
      i := i + 1;
    }
    r := Read(table);
  }

  /** The first `i` entries have been read. */
  ghost predicate SoFar(ilocs: map<nat, Iloc>, data: seq<byte>, version: nat, base: nat, step: nat, i: nat,
                        table: map<nat, Iloc>)
  {
    step >= 12 && base + i * step <= |data| && table == Table(ilocs, data, version, base, step, i)
  }

  lemma EntryRead(ilocs: map<nat, Iloc>, data: seq<byte>, version: nat, base: nat, step: nat, i: nat, skip: nat,
                  table: map<nat, Iloc>)
    requires SoFar(ilocs, data, version, base, step, i, table) && skip == base + i * step && skip + step <= |data|
    ensures SoFar(ilocs, data, version, base, step, i + 1, Recorded(table, ItemAt(data, version, skip, step)))
  {
    EntryInside(base, step, i + 1);
  }

  lemma EntryTooShort(base: nat, step: nat, i: nat, count: nat, skip: nat, length: nat)
    requires i < count && skip == base + i * step && skip + step > length
    ensures base + count * step > length
  {
    EntryInside(base, step, i + 1);
    EntriesGrow(base, step, i + 1, count);
  }

  lemma EntriesGrow(base: nat, step: nat, m: nat, n: nat)
    requires m <= n
    ensures base + m * step <= base + n * step
  {
  }
}
