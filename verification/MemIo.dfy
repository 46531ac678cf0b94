/** The growable in-memory file `MemIo`, refined to a plain byte file with a cursor and an end-of-file flag. */
module MemIo {
  import opened Bytes

  const FIRST_BLOCK: nat := 32 * 1024
  const MAX_BLOCK: nat := 4 * 1024 * 1024

  datatype Position = Beg | Cur | End

  /** What a caller can observe of an open file. */
  datatype File = File(bytes: seq<byte>, pos: nat, eof: bool) {
    predicate Valid() {
      pos <= |bytes|
    }
  }

  // ---------- the abstract file ----------

  function Written(f: File, s: seq<byte>): (g: File)
    requires f.Valid()
    ensures g.Valid()
  {
    File(f.bytes[..f.pos] + s + From(f.bytes, f.pos + |s|), f.pos + |s|, f.eof)
  }

  function From(s: seq<byte>, start: nat): seq<byte> {
    if start < |s| then s[start..] else []
  }

  function Available(f: File, count: nat): (s: seq<byte>)
    requires f.Valid()
  {
    f.bytes[f.pos..f.pos + Min(count, |f.bytes| - f.pos)]
  }

  /** The bytes a read returns, as a slice between given offsets. */
  lemma AvailableSlice(f: File, count: nat, from: nat, to: nat)
    requires f.Valid() && from == f.pos && to == from + Min(count, |f.bytes| - from)
    ensures Available(f, count) == f.bytes[from..to]
  {
  }

  function AfterRead(f: File, count: nat): (g: File)
    requires f.Valid()
    ensures g.Valid()
  {
    f.(pos := f.pos + Min(count, |f.bytes| - f.pos), eof := f.eof || count > |f.bytes| - f.pos)
  }

  function Target(f: File, offset: int, from: Position): int {
    match from
    case Cur => f.pos + offset
    case Beg => offset
    case End => |f.bytes| + offset
  }

  function AfterSeek(f: File, offset: int, from: Position): (g: File)
    requires f.Valid()
    ensures g.Valid()
  {
    var t := Target(f, offset, from);
    if t < 0 then f
    else if t > |f.bytes| then f.(eof := true)
    else f.(pos := t, eof := false)
  }

  /** What was written is read back from the same place, whatever else is done to the cursor in between. */
  lemma WriteThenRead(f: File, s: seq<byte>)
    requires f.Valid()
    ensures Available(AfterSeek(Written(f, s), f.pos, Beg), |s|) == s
    ensures Available(AfterSeek(Written(f, s), -|s|, Cur), |s|) == s
  {
  }

  /** A store that holds `s` at the cursor and is unchanged elsewhere is what `Written` describes. */
  lemma WrittenBytes(f: File, s: seq<byte>, c: seq<byte>)
    requires f.Valid()
    requires |c| == Max(|f.bytes|, f.pos + |s|)
    requires forall i | 0 <= i < f.pos :: c[i] == f.bytes[i]
    requires forall i | 0 <= i < |s| :: c[f.pos + i] == s[i]
    requires forall i | f.pos + |s| <= i < |f.bytes| :: c[i] == f.bytes[i]
    ensures c == Written(f, s).bytes
  {
  }

  /** A write puts its bytes at the cursor and moves behind them; the file grows if it must, every other byte stays, and
      so does the flag. */
  lemma WrittenIs(f: File, s: seq<byte>)
    requires f.Valid()
    ensures var g := Written(f, s);
            && g.pos == f.pos + |s| && g.eof == f.eof
            && |g.bytes| == (if f.pos + |s| > |f.bytes| then f.pos + |s| else |f.bytes|)
            && (forall i | 0 <= i < |s| :: g.bytes[f.pos + i] == s[i])
            && (forall i | 0 <= i < |f.bytes| && !(f.pos <= i < f.pos + |s|) :: g.bytes[i] == f.bytes[i])
  {
  }

  /** A read returns what there is, up to the count, and moves behind it; the flag is set when there was not enough. */
  lemma ReadIs(f: File, count: nat)
    requires f.Valid()
    ensures var s, g, rest := Available(f, count), AfterRead(f, count), |f.bytes| - f.pos;
            && |s| == (if count <= rest then count else rest) && (forall i | 0 <= i < |s| :: s[i] == f.bytes[f.pos + i])
            && g.bytes == f.bytes && g.pos == f.pos + |s| && (g.eof <==> f.eof || count > rest)
  {
  }

  /** A seek goes to its target and clears the flag, if the target is in the file or at its end; one past the end only
      sets the flag, and one before the start does nothing. */
  lemma SeekIs(f: File, offset: int, from: Position)
    requires f.Valid()
    ensures var g, t := AfterSeek(f, offset, from),
                        (if from.Beg? then 0 else if from.Cur? then f.pos else |f.bytes|) + offset;
            && g.bytes == f.bytes
            && (0 <= t <= |f.bytes| ==> g.pos == t && !g.eof)
            && (t > |f.bytes| ==> g.pos == f.pos && g.eof)
            && (t < 0 ==> g == f)
  {
  }

  /** Writing in pieces is writing at once. */
  lemma WritesCompose(f: File, s: seq<byte>, t: seq<byte>)
    requires f.Valid()
    ensures Written(Written(f, s), t) == Written(f, s + t)
  {
    var head, g := f.bytes[..f.pos], Written(f, s);
    var past := f.pos + |s| + |t|;
    assert g.bytes[..g.pos] == head + s;
    if past < |f.bytes| {
      var tail := f.bytes[g.pos..];
      assert g.bytes == (head + s) + tail;
      assert g.bytes[past..] == tail[|t|..] == f.bytes[past..];
    }
    assert From(g.bytes, past) == From(f.bytes, past);
    assert (head + s) + t == head + (s + t);
  }

  lemma WrittenNothing(f: File)
    requires f.Valid()
    ensures Written(f, []) == f
  {
  }

  /** A copy of the rest of `g` to the cursor of `f` has come `total` bytes far; it is over when `n` is 0. */
  ghost predicate Copying(f: File, g: File, now: File, src: File, total: nat, n: nat) {
    && f.Valid() && g.Valid() && src.bytes == g.bytes && src.pos == g.pos + total <= |g.bytes|
    && (n == 0 ==> src == g.(pos := |g.bytes|, eof := true))
    && now == Written(f, g.bytes[g.pos..src.pos])
  }

  lemma CopyStart(f: File, g: File)
    requires f.Valid() && g.Valid()
    ensures Copying(f, g, f, g, 0, 1)
  {
    WrittenNothing(f);
    assert g.bytes[g.pos..g.pos] == [];
  }

  lemma CopyDone(f: File, g: File, now: File, src: File, total: nat)
    requires Copying(f, g, now, src, total, 0)
    ensures now == Written(f, g.bytes[g.pos..]) && total == |g.bytes| - g.pos
    ensures src == g.(pos := |g.bytes|, eof := true)
  {
    assert g.bytes[g.pos..|g.bytes|] == g.bytes[g.pos..];
  }

  /** One more piece of at most 4096 bytes. */
  lemma CopyOn(f: File, g: File, now: File, src: File, total: nat, now': File, src': File, n: nat, next: nat)
    requires Copying(f, g, now, src, total, 1) && now.Valid() && src.Valid() && next == total + n
    requires n == Min(4096, |src.bytes| - src.pos) && src' == AfterRead(src, 4096)
    requires now' == Written(now, src.bytes[src.pos..][..n])
    ensures Copying(f, g, now', src', next, n)
  {
    var rest := g.bytes[g.pos..];
    assert g.bytes[g.pos..src.pos] == rest[..total] && src.bytes[src.pos..] == rest[total..];
    assert g.bytes[g.pos..src'.pos] == rest[..next];
    WritesCompose(f, rest[..total], rest[total..][..n]);
    NextPiece(rest, total, n, next);
  }

  lemma NextPiece(s: seq<byte>, total: nat, n: nat, next: nat)
    requires next == total + n <= |s|
    ensures s[..total] + s[total..][..n] == s[..next]
  {
  }

  /** Reading in pieces is reading at once: the same bytes, the same cursor, the same end-of-file flag. */
  lemma ReadsCompose(f: File, m: nat, n: nat)
    requires f.Valid()
    ensures Available(f, m) + Available(AfterRead(f, m), n) == Available(f, m + n)
    ensures AfterRead(AfterRead(f, m), n) == AfterRead(f, m + n)
  {
  }

  // ---------- growth of the buffer ----------

  function FirstCapacity(need: nat, size: nat): nat {
    Max(FIRST_BLOCK * (1 + need / FIRST_BLOCK), size)
  }

  function NextCapacity(capacity: nat, need: nat): nat
    requires capacity > 0
  {
    if need <= capacity then capacity
    else
      var block := Min(2 * capacity, MAX_BLOCK);
      block * (1 + need / block)
  }

  function Pow2(n: nat): nat {
    if n == 0 then 1 else 2 * Pow2(n - 1)
  }

  /** How many reallocations a buffer of this capacity can have been through. */
  ghost predicate GrowthBound(capacity: nat, reallocs: nat) {
    && FIRST_BLOCK <= capacity
    && reallocs <= 6 + capacity / MAX_BLOCK
    && (capacity < MAX_BLOCK ==> FIRST_BLOCK * Pow2(reallocs) <= capacity)
  }

  lemma RoundUp(need: nat, block: nat)
    requires block > 0
    ensures need < block * (1 + need / block) <= need + block
    ensures block <= block * (1 + need / block)
  {
    assert need == block * (need / block) + need % block;
    assert block * (1 + need / block) == block + block * (need / block);
  }

  lemma {:induction false} Pow2AtLeast64(n: nat)
    ensures n >= 6 ==> Pow2(n) >= 64
  {
    assert Pow2(6) == 64;
    if n > 6 {
      Pow2AtLeast64(n - 1);
    }
  }

  lemma FirstAllocation(need: nat, size: nat)
    ensures need < FirstCapacity(need, size)
    ensures size <= FirstCapacity(need, size) <= Max(need + 32768, size)
    ensures GrowthBound(FirstCapacity(need, size), 0)
  {
  }

  lemma Doubling(capacity: nat, next: nat, reallocs: nat)
    requires 2 * capacity < MAX_BLOCK && 2 * capacity <= next
    requires GrowthBound(capacity, reallocs)
    ensures GrowthBound(next, reallocs + 1)
  {
    Pow2AtLeast64(reallocs);
  }

  /** One reallocation overshoots the need by at most 4 MiB and keeps the bound on their number. */
  lemma Reallocation(capacity: nat, need: nat, reallocs: nat)
    requires capacity < need
    requires GrowthBound(capacity, reallocs)
    ensures need < NextCapacity(capacity, need) <= need + MAX_BLOCK
    ensures GrowthBound(NextCapacity(capacity, need), reallocs + 1)
  {
    if 2 * capacity < MAX_BLOCK {
      RoundUp(need, 2 * capacity);
      Doubling(capacity, NextCapacity(capacity, need), reallocs);
    } else {
      RoundUp(need, MAX_BLOCK);
      assert NextCapacity(capacity, need) == MAX_BLOCK * (1 + need / MAX_BLOCK);
    }
  }

  /** The capacity, and the number of reallocations, after writes that end at the given offsets. */
  ghost function Grown(capacity: nat, reallocs: nat, needs: seq<nat>): (r: (nat, nat))
    requires GrowthBound(capacity, reallocs)
    ensures GrowthBound(r.0, r.1) && capacity <= r.0
    decreases |needs|
  {
    if needs == [] then (capacity, reallocs)
    else if needs[0] <= capacity then Grown(capacity, reallocs, needs[1..])
    else
      Reallocation(capacity, needs[0], reallocs);
      Grown(NextCapacity(capacity, needs[0]), reallocs + 1, needs[1..])
  }

  /** Over any run of writes: few reallocations, room for every write, and little room to spare. */
  lemma {:induction false} GrowthOverRuns(capacity: nat, reallocs: nat, needs: seq<nat>, most: nat)
    requires GrowthBound(capacity, reallocs)
    requires forall i | 0 <= i < |needs| :: needs[i] <= most
    ensures var (c, n) := Grown(capacity, reallocs, needs);
            && n <= 6 + c / 4194304
            && (forall i | 0 <= i < |needs| :: needs[i] <= c)
            && c <= Max(capacity, most + 4194304)
    decreases |needs|
  {
    if needs != [] {
      var next := NextCapacity(capacity, needs[0]);
      var rest := needs[1..];
      assert forall i | 0 <= i < |rest| :: rest[i] == needs[i + 1];
      if needs[0] <= capacity {
        GrowthOverRuns(capacity, reallocs, rest, most);
      } else {
        Reallocation(capacity, needs[0], reallocs);
        GrowthOverRuns(next, reallocs + 1, rest, most);
      }
      var (c, _) := Grown(capacity, reallocs, needs);
      forall i | 0 <= i < |needs| ensures needs[i] <= c {
        if i > 0 {
          assert needs[i] == rest[i - 1];
        }
      }
    }
  }

  // ---------- the concrete object ----------

  class MemIo {
    var data: array?<byte>
    var idx: nat
    var size: nat
    var sizeAlloced: nat
    var isMalloced: bool
    var eof: bool
    /** How often the owned buffer has been reallocated. */
    ghost var reallocs: nat

    ghost predicate Valid()
      reads this
    {
      && idx <= size
      && (data == null ==> size == 0 && !isMalloced)
      && (data != null ==> size <= data.Length)
      && (isMalloced ==> data != null && size <= sizeAlloced == data.Length && GrowthBound(sizeAlloced, reallocs))
    }

    ghost function Contents(): (s: seq<byte>)
      reads this, data
      requires Valid()
      ensures |s| == size
    {
      if data == null then [] else data[..size]
    }

    ghost function Abs(): (f: File)
      reads this, data
      requires Valid()
      ensures f.Valid()
    {
      File(Contents(), idx, eof)
    }

    /** The buffer the object may write to: none while it still wraps its caller's. */
    ghost function Owned(): set<object>
      reads this
      requires Valid()
    {
      if isMalloced then {data} else {}
    }

    constructor ()
      ensures Valid() && Abs() == File([], 0, false) && !isMalloced
    {
      data := null;
      idx, size, sizeAlloced, isMalloced, eof := 0, 0, 0, false, false;
      reallocs := 0;
    }

    constructor Wrap(buffer: array<byte>, n: nat)
      requires n <= buffer.Length
      ensures Valid() && Abs() == File(buffer[..n], 0, false)
      ensures !isMalloced && data == buffer
    {
      data := buffer;
      idx, size, sizeAlloced, isMalloced, eof := 0, n, 0, false, false;
      reallocs := 0;
    }

    /** The first allocation: an owned copy of whatever was wrapped. */
    method Own(need: nat)
      requires Valid() && !isMalloced
      modifies this`data, this`sizeAlloced, this`isMalloced, this`reallocs
      ensures Valid() && isMalloced && fresh(data)
      ensures reallocs == 0 && need < sizeAlloced == FirstCapacity(need, size)
      ensures Contents() == old(Contents())
    {
      var capacity := Max(FIRST_BLOCK * (1 + need / FIRST_BLOCK), size);
      FirstAllocation(need, size);
      var buffer := new byte[capacity];
      if data != null {
        forall i | 0 <= i < size {
          buffer[i] := data[i];
        }
      }
      data, sizeAlloced, isMalloced := buffer, capacity, true;
      reallocs := 0;
      assert Contents() == old(Contents());
    }

    /** A later allocation: the old bytes move into a larger buffer. */
    method Enlarge(need: nat)
      requires Valid() && isMalloced && need > sizeAlloced
      modifies this`data, this`sizeAlloced, this`reallocs
      ensures Valid() && fresh(data) && reallocs == old(reallocs) + 1
      ensures sizeAlloced == NextCapacity(old(sizeAlloced), need)
      ensures Contents() == old(Contents())
    {
      var block := 2 * sizeAlloced;
      if block > MAX_BLOCK {
        block := MAX_BLOCK;
      }
      var want := block * (1 + need / block);
      Reallocation(sizeAlloced, need, reallocs);
      var buffer := new byte[want];
      forall i | 0 <= i < sizeAlloced {
        buffer[i] := data[i];
      }
      data, sizeAlloced := buffer, want;
      reallocs := reallocs + 1;
      assert Contents() == old(Contents());
    }

    method Reserve(count: nat)
      requires Valid()
      modifies this`data, this`size, this`sizeAlloced, this`isMalloced, this`reallocs
      ensures Valid() && isMalloced
      ensures fresh(data) || (old(isMalloced) && data == old(data))
      ensures old(isMalloced) && idx + count <= old(sizeAlloced) ==> data == old(data)
      ensures !old(isMalloced) ==> reallocs == 0 && sizeAlloced == FirstCapacity(idx + count, old(size))
      ensures old(isMalloced) ==> sizeAlloced == NextCapacity(old(sizeAlloced), idx + count)
      ensures old(isMalloced) ==> reallocs == old(reallocs) + if idx + count > old(sizeAlloced) then 1 else 0
      ensures size == Max(old(size), idx + count)
      ensures Contents()[..old(size)] == old(Contents())
    {
      var need := count + idx;
      if !isMalloced {
        Own(need);  // leaves room for `need`
      } else if need > sizeAlloced {
        Enlarge(need);
      }
      assert data[..size] == old(Contents());
      if need > size {
        size := need;
      }
    }

    method Write(s: seq<byte>) returns (n: nat)
      requires Valid()
      modifies this, Owned()
      ensures Valid() && isMalloced
      ensures Abs() == Written(old(Abs()), s) && n == |s|
      ensures fresh(data) || (old(isMalloced) && data == old(data))
      ensures old(data) != null && !old(isMalloced) ==> old(data)[..] == old(data[..])
    {
      ghost var f := Abs();
      Reserve(|s|);
      assert Contents()[..old(size)] == f.bytes;
      forall i | 0 <= i < |s| {
        data[idx + i] := s[i];
      }
      idx := idx + |s|;
      WrittenBytes(f, s, Contents());
      n := |s|;
    }

    method PutB(b: byte) returns (r: byte)
      requires Valid()
      modifies this, Owned()
      ensures Valid() && isMalloced
      ensures Abs() == Written(old(Abs()), [b]) && r == b
      ensures fresh(data) || (old(isMalloced) && data == old(data))
      ensures old(data) != null && !old(isMalloced) ==> old(data)[..] == old(data[..])
    {
      ghost var f := Abs();
      Reserve(1);
      assert Contents()[..old(size)] == f.bytes;
      data[idx] := b;
      idx := idx + 1;
      WrittenBytes(f, [b], Contents());
      r := b;
    }

    method Read(count: nat) returns (s: seq<byte>)
      requires Valid()
      modifies this`idx, this`eof
      ensures Valid() && Abs() == AfterRead(old(Abs()), count) && Contents() == old(Contents())
      ensures s == Available(old(Abs()), count)
    {
      var avail := size - idx;
      var allow := Min(count, avail);
      s := [];
      if allow > 0 {
        s := data[idx..idx + allow];
      }
      assert s == Contents()[idx..idx + allow];
      idx := idx + allow;
      if count > avail {
        eof := true;
      }
    }

    method GetB() returns (r: int)
      requires Valid()
      modifies this`idx, this`eof
      ensures Valid()
      ensures old(idx) < size ==> [r] == Available(old(Abs()), 1) && Abs() == AfterRead(old(Abs()), 1)
      ensures old(idx) == size ==> r == -1 && Abs() == old(Abs()).(eof := true)
    {
      if idx >= size {
        eof := true;
        return -1;
      }
      r := data[idx];
      idx := idx + 1;
    }

    method Seek(offset: int, from: Position) returns (failed: bool)
      requires Valid()
      modifies this`idx, this`eof
      ensures Valid() && Abs() == AfterSeek(old(Abs()), offset, from)
      ensures failed <==> !(0 <= Target(old(Abs()), offset, from) <= size)
    {
      var newIdx: int := 0;
      match from {
        case Cur => newIdx := idx + offset;
        case Beg => newIdx := offset;
        case End => newIdx := size + offset;
      }
      if newIdx < 0 {
        return true;
      }
      if newIdx > size {
        eof := true;
        return true;
      }
      idx, eof := newIdx, false;
      return false;
    }

    method Open()
      requires Valid()
      modifies this`idx, this`eof
      ensures Valid() && Abs() == AfterSeek(old(Abs()), 0, Beg)
    {
      idx, eof := 0, false;
    }

    /** One turn of the copy loop: reads a buffer of `src` and writes it. */
    method CopyBlock(src: MemIo) returns (n: nat)
      requires Valid() && src.Valid() && src != this
      requires src.data !in Owned()
      modifies this, Owned(), src`idx, src`eof
      ensures Valid() && src.Valid() && src.data !in Owned()
      ensures fresh(data) || (data == old(data) && isMalloced == old(isMalloced))
      ensures n == Min(4096, old(src.size - src.idx))
      ensures Abs() == Written(old(Abs()), old(src.Contents()[src.idx..])[..n])
      ensures src.Abs() == AfterRead(old(src.Abs()), 4096)
    {
      var chunk := src.Read(4096);
      n := |chunk|;
      assert chunk == old(src.Contents()[src.idx..])[..n];
      if n != 0 {
        n := Write(chunk);
      } else {
        WrittenNothing(old(Abs()));
      }
    }

    /** The copy loop of `write(BasicIo&)`. */
    method CopyRest(src: MemIo) returns (total: nat)
      requires Valid() && src.Valid() && src != this
      requires src.data !in Owned()
      modifies this, Owned(), src`idx, src`eof
      ensures Valid() && src.Valid()
      ensures Abs() == Written(old(Abs()), old(src.Contents()[src.idx..]))
      ensures total == old(src.size - src.idx)
      ensures src.Abs() == old(src.Abs()).(pos := old(src.size), eof := true)
    {
      ghost var f, g := Abs(), src.Abs();
      CopyStart(f, g);
      total := CopyBlock(src);
      var n := total;
      CopyOn(f, g, f, g, 0, Abs(), src.Abs(), n, n);
      while n != 0
        invariant Valid() && src.Valid() && src.data !in Owned()
        invariant fresh(data) || (data == old(data) && isMalloced == old(isMalloced))
        invariant Copying(f, g, Abs(), src.Abs(), total, n)
        decreases |g.bytes| - g.pos - total, n
      {
        ghost var now, from := Abs(), src.Abs();
        n := CopyBlock(src);
        CopyOn(f, g, now, from, total, Abs(), src.Abs(), n, total + n);
        total := total + n;
      }
      CopyDone(f, g, Abs(), src.Abs(), total);
    }

    /** `write(BasicIo&)`: writes the rest of another store at the cursor, 4096 bytes at a time. */
    method WriteFrom(src: MemIo) returns (total: nat)
      requires Valid() && src.Valid()
      requires src != this ==> src.data !in Owned()
      modifies this, Owned(), src`idx, src`eof
      ensures Valid() && src.Valid()
      ensures src == this ==> total == 0 && Abs() == old(Abs())
      ensures src != this ==>
                && Abs() == Written(old(Abs()), old(src.Contents()[src.idx..]))
                && total == old(src.size - src.idx)
                && src.Abs() == old(src.Abs()).(pos := old(src.size), eof := true)
      ensures old(data) != null && !old(isMalloced) ==> old(data)[..] == old(data[..])
    {
      if src == this {
        return 0;
      }
      total := CopyRest(src);
    }
  }
}
