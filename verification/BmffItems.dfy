/** Written item locations are read back. */
module BmffItems {
  import opened Basics
  import opened Bytes
  import opened BmffBoxes
  import opened BmffIloc
  import opened BmffWriter

  /** An entry of 14, 16 or 18 bytes: the offset stands in front of the length, or in the longest form behind the
      identifier and two more bytes. `rest` are the bytes of other fields. */
  function EntryBytes(id: nat, start: nat, length: nat, rest: seq<byte>): seq<byte> {
    if |rest| == 8 then Big16(id) + rest[..2] + Big32(start) + rest[2..] + Big32(length)
    else Big16(id) + rest + Big32(start) + Big32(length)
  }

  datatype Entry = Entry(id: nat, start: nat, length: nat, rest: seq<byte>)

  predicate EntryOk(e: Entry, step: nat) {
    && (step == 14 || step == 16 || step == 18) && |e.rest| == step - 10
    && e.id < 0x1_0000 && e.start < 0x1_0000_0000 && e.length < 0x1_0000_0000
  }

  lemma EntryLength(e: Entry, step: nat)
    requires EntryOk(e, step)
    ensures |EntryBytes(e.id, e.start, e.length, e.rest)| == step
  {
  }

  lemma LongEntryReads(data: seq<byte>, at: nat, e: Entry)
    requires EntryOk(e, 18) && At(data, at, EntryBytes(e.id, e.start, e.length, e.rest))
    ensures at + 18 <= |data| && U16(data, at) == e.id && U32(data, at + 4) == e.start && U32(data, at + 14) == e.length
  {
    var a, b := Big16(e.id) + e.rest[..2], Big32(e.start) + (e.rest[2..] + Big32(e.length));
    assert EntryBytes(e.id, e.start, e.length, e.rest) == a + b;
    AtSplit(data, at, a, b);
    AtSplit(data, at, Big16(e.id), e.rest[..2]);
    AtSplit(data, at + 4, Big32(e.start), e.rest[2..] + Big32(e.length));
    AtSplit(data, at + 8, e.rest[2..], Big32(e.length));
    Read16(data, at, e.id);
    Read32(data, at + 4, e.start);
    Read32(data, at + 14, e.length);
  }

  lemma ShortEntryReads(data: seq<byte>, at: nat, step: nat, e: Entry)
    requires (step == 14 || step == 16) && EntryOk(e, step)
    requires At(data, at, EntryBytes(e.id, e.start, e.length, e.rest))
    ensures at + step <= |data| && U16(data, at) == e.id
    ensures U32(data, at + step - 8) == e.start && U32(data, at + step - 4) == e.length
  {
    var a, b := Big16(e.id) + e.rest, Big32(e.start) + Big32(e.length);
    assert EntryBytes(e.id, e.start, e.length, e.rest) == a + b;
    AtSplit(data, at, a, b);
    AtSplit(data, at, Big16(e.id), e.rest);
    AtSplit(data, at + step - 8, Big32(e.start), Big32(e.length));
    Read16(data, at, e.id);
    Read32(data, at + step - 8, e.start);
    Read32(data, at + step - 4, e.length);
  }

  /** An entry is read back with its identifier, its offset and its length. */
  lemma EntryReads(data: seq<byte>, version: nat, at: nat, step: nat, e: Entry)
    requires version <= 2 && EntryOk(e, step) && At(data, at, EntryBytes(e.id, e.start, e.length, e.rest))
    ensures at + step <= |data| && ItemAt(data, version, at, step) == Iloc(e.id, e.start, e.length)
  {
    if step == 18 {
      LongEntryReads(data, at, e);
    } else {
      ShortEntryReads(data, at, step, e);
    }
  }

  predicate AllOk(entries: seq<Entry>, step: nat) {
    forall i | 0 <= i < |entries| :: EntryOk(entries[i], step)
  }

  function EntriesBytes(entries: seq<Entry>): seq<byte> {
    if entries == [] then []
    else
      var n := |entries| - 1;
      EntriesBytes(entries[..n]) + EntryBytes(entries[n].id, entries[n].start, entries[n].length, entries[n].rest)
  }

  /** The payload of a location box: version, flags, the two sizes of four bytes, one unused byte, the count. */
  function ItemsBytes(version: byte, flags: seq<byte>, unused: byte, entries: seq<Entry>): seq<byte> {
    [version] + flags + [0x44, unused] + Big16(|entries|) + EntriesBytes(entries)
  }

  /** The entry has an offset, a length and an identifier that is not the one for none. */
  predicate Told(e: Entry) {
    e.start != 0 && e.length != 0 && e.id != 0xffff
  }

  /** No later entry that is told has the same identifier. */
  predicate Latest(entries: seq<Entry>, i: nat)
    requires i < |entries|
  {
    Told(entries[i]) && forall j | i < j < |entries| :: entries[j].id == entries[i].id ==> !Told(entries[j])
  }

  predicate Untold(entries: seq<Entry>, k: nat) {
    forall i | 0 <= i < |entries| :: entries[i].id == k ==> !Told(entries[i])
  }

  /** The last entry with each identifier has been recorded, and nothing else has changed. */
  ghost predicate Collected(ilocs: map<nat, Iloc>, entries: seq<Entry>, table: map<nat, Iloc>) {
    && (forall i | 0 <= i < |entries| && Latest(entries, i) ::
          && entries[i].id in table
          && table[entries[i].id] == Iloc(entries[i].id, entries[i].start, entries[i].length))
    && (forall k: nat | Untold(entries, k) :: (k in table <==> k in ilocs) && (k in table ==> table[k] == ilocs[k]))
  }

  lemma CollectedSnoc(ilocs: map<nat, Iloc>, entries: seq<Entry>, e: Entry, table: map<nat, Iloc>, all: seq<Entry>)
    requires Collected(ilocs, entries, table) && all == entries + [e]
    ensures Collected(ilocs, all, Recorded(table, Iloc(e.id, e.start, e.length)))
  {
    var next, n := Recorded(table, Iloc(e.id, e.start, e.length)), |entries|;
    assert all[n] == e;
    forall i | 0 <= i < |all| && Latest(all, i)
      ensures all[i].id in next && next[all[i].id] == Iloc(all[i].id, all[i].start, all[i].length)
    {
      if i < n {
        assert Latest(entries, i) by {
          forall j | i < j < n && entries[j].id == entries[i].id ensures !Told(entries[j]) {
            assert all[j] == entries[j];
          }
        }
        assert all[n].id == all[i].id ==> !Told(all[n]);
      }
    }
    forall k: nat | Untold(all, k) ensures (k in next <==> k in ilocs) && (k in next ==> next[k] == ilocs[k]) {
      assert Untold(entries, k) by {
        forall i | 0 <= i < n && entries[i].id == k ensures !Told(entries[i]) {
          assert all[i] == entries[i];
        }
      }
      assert all[n].id == k ==> !Told(all[n]);
    }
  }

  lemma {:induction false} EntriesLength(entries: seq<Entry>, step: nat)
    requires AllOk(entries, step)
    ensures |EntriesBytes(entries)| == |entries| * step
  {
    if entries != [] {
      var n := |entries| - 1;
      EntriesLength(entries[..n], step);
      EntryLength(entries[n], step);
      EntryInside(0, step, n + 1);
    }
  }

  /** The last entry, and those before it. */
  lemma EntriesSplit(data: seq<byte>, version: nat, base: nat, step: nat, entries: seq<Entry>, before: seq<Entry>,
                     e: Entry, at: nat, end: nat)
    requires version <= 2 && AllOk(entries, step) && entries == before + [e] && At(data, base, EntriesBytes(entries))
    requires at == base + |EntriesBytes(before)| && end == base + |EntriesBytes(entries)|
    ensures AllOk(before, step) && At(data, base, EntriesBytes(before))
    ensures end == at + step <= |data| && ItemAt(data, version, at, step) == Iloc(e.id, e.start, e.length)
  {
    var bytes := EntryBytes(e.id, e.start, e.length, e.rest);
    assert EntryOk(entries[|before|], step);
    assert entries[..|before|] == before && EntriesBytes(entries) == EntriesBytes(before) + bytes;
    AtSplit(data, base, EntriesBytes(before), bytes);
    EntryLength(e, step);
    EntryReads(data, version, at, step, e);
  }

  /** The loop has read these entries, up to `end`. */
  ghost predicate Tabled(ilocs: map<nat, Iloc>, data: seq<byte>, version: nat, base: nat, step: nat,
                         entries: seq<Entry>, end: nat) {
    && step >= 12 && end == base + |entries| * step <= |data|
    && Collected(ilocs, entries, Table(ilocs, data, version, base, step, |entries|))
  }

  lemma TabledSnoc(ilocs: map<nat, Iloc>, data: seq<byte>, version: nat, base: nat, step: nat, before: seq<Entry>,
                   e: Entry, all: seq<Entry>, at: nat)
    requires Tabled(ilocs, data, version, base, step, before, at) && all == before + [e] && at + step <= |data|
    requires ItemAt(data, version, at, step) == Iloc(e.id, e.start, e.length)
    ensures Tabled(ilocs, data, version, base, step, all, at + step)
  {
    TableNext(ilocs, data, version, base, step, |before|, |all|, at, Iloc(e.id, e.start, e.length));
    CollectedSnoc(ilocs, before, e, Table(ilocs, data, version, base, step, |before|), all);
  }

  lemma TableNext(ilocs: map<nat, Iloc>, data: seq<byte>, version: nat, base: nat, step: nat, n: nat, m: nat, at: nat,
                  i: Iloc)
    requires step >= 12 && m == n + 1 && at == base + n * step && at + step <= |data|
    requires ItemAt(data, version, at, step) == i
    ensures base + m * step == at + step
    ensures Table(ilocs, data, version, base, step, m) == Recorded(Table(ilocs, data, version, base, step, n), i)
  {
    EntryInside(base, step, m);
  }

  /** The loop over written entries records them. */
  lemma {:induction false} TableCollected(ilocs: map<nat, Iloc>, data: seq<byte>, version: nat, base: nat, step: nat,
                                          entries: seq<Entry>, end: nat)
    requires version <= 2 && AllOk(entries, step) && step >= 12 && At(data, base, EntriesBytes(entries))
    requires end == base + |EntriesBytes(entries)|
    ensures Tabled(ilocs, data, version, base, step, entries, end)
    decreases |entries|
  {
    if entries == [] {
      assert base + 0 * step == base;
    } else {
      var before, e := entries[..|entries| - 1], entries[|entries| - 1];
      var at := base + |EntriesBytes(before)|;
      EntriesSplit(data, version, base, step, entries, before, e, at, end);
      TableCollected(ilocs, data, version, base, step, before, at);
      TabledSnoc(ilocs, data, version, base, step, before, e, entries, at);
    }
  }

  /** The size of the entries is found from the length of the box. */
  lemma StepFound(n: nat, step: nat, boxLength: nat)
    requires n > 0 && step >= 14 && boxLength == 16 + n * step
    ensures Step(boxLength, n, 0x44) == Some(step)
  {
    var product := n * step;
    assert product == n * (product / n) + product % n;
    Multiple(n, step - product / n, product % n);
    assert product >= n * 14;
  }

  lemma Multiple(n: nat, x: int, r: nat)
    requires n > 0 && n * x == r && r < n
    ensures x == 0 && r == 0
  {
    Grows(n, x);
  }

  lemma Grows(n: nat, x: int)
    requires n > 0
    ensures (x >= 1 ==> n * x >= n) && (x <= -1 ==> n * x < 0)
  {
  }

  /** A written location box is read back: the last entry with each identifier counts. */
  method ReadWritten(version: byte, flags: seq<byte>, unused: byte, entries: seq<Entry>, step: nat,
                     ilocs: map<nat, Iloc>)
    returns (table: map<nat, Iloc>)
    requires version < 2 && |flags| == 3 && 0 < |entries| < 0x1_0000 && AllOk(entries, step)
    ensures Collected(ilocs, entries, table)
  {
    var data := ItemsBytes(version, flags, unused, entries);
    ghost var n := |entries|;
    var boxLength := |data| + 8;
    ItemsRead(version, flags, unused, entries, step, data);
    var r := ReadItems(data, boxLength, 8, ilocs);
    TableCollected(ilocs, data, version as int, 8, step, entries, |data|);
    table := r.ilocs;
  }

  lemma ItemsRead(version: byte, flags: seq<byte>, unused: byte, entries: seq<Entry>, step: nat, data: seq<byte>)
    requires |flags| == 3 && 0 < |entries| < 0x1_0000 && AllOk(entries, step)
    requires data == ItemsBytes(version, flags, unused, entries)
    ensures |data| >= 10 && data[0] == version && data[4] == 0x44 && U16(data, 6) == |entries|
    ensures At(data, 8, EntriesBytes(entries)) && Step(|data| + 8, |entries|, data[4]) == Some(step)
  {
    var total := |EntriesBytes(entries)|;
    PartsRead(version, flags, unused, |entries|, EntriesBytes(entries), data);
    EntriesLength(entries, step);
    EntryLength(entries[0], step);
    AtLeastOne(|entries|, step, total);
    StepFound(|entries|, step, |data| + 8);
  }

  lemma AtLeastOne(n: nat, step: nat, total: nat)
    requires n > 0 && total == n * step
    ensures total >= step
  {
  }

  lemma PartsRead(version: byte, flags: seq<byte>, unused: byte, n: nat, bytes: seq<byte>, data: seq<byte>)
    requires |flags| == 3 && n < 0x1_0000 && data == [version] + flags + [0x44, unused] + Big16(n) + bytes
    ensures |data| == 8 + |bytes| && data[0] == version && data[4] == 0x44 && U16(data, 6) == n && At(data, 8, bytes)
  {
    var head := [version] + flags + [0x44, unused];
    assert data == head + (Big16(n) + bytes) && data[0..0 + |data|] == data;
    AtSplit(data, 0, head, Big16(n) + bytes);
    AtSplit(data, 6, Big16(n), bytes);
    Read16(data, 6, n);
  }
}
