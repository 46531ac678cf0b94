/** How `RemoteIo` cuts a remote file into blocks, and what a partly filled block map shows of that file. */
module RemoteBlocks {
  import opened Bytes

  /** `BlockMap`: a block not fetched yet, a placeholder whose bytes count as zeros, or fetched bytes. */
  datatype Block = None | Known(num: nat) | Memory(data: seq<byte>) {
    /** The bytes that `write` compares: those of `getData`, `getSize` of them. */
    function Shown(): seq<byte> {
      match this
      case None => []
      case Known(num) => Zeros(num)
      case Memory(data) => data
    }
  }

  function Zeros(n: nat): (s: seq<byte>)
    ensures |s| == n
  {
    seq(n, _ => 0)
  }

  /** The offset at which block `i` starts. */
  function Start(i: nat, size: nat): (n: nat) {
    if i == 0 then 0 else Start(i - 1, size) + size
  }

  function BlockCount(length: nat, size: nat): nat
    requires size > 0
  {
    (length + size - 1) / size
  }

  lemma {:induction false} StartIsProduct(i: nat, size: nat)
    ensures Start(i, size) == i * size
  {
    if i > 0 {
      StartIsProduct(i - 1, size);
      assert i * size == (i - 1) * size + size;
    }
  }

  lemma {:induction false} StartMonotone(i: nat, j: nat, size: nat)
    requires i <= j
    ensures Start(i, size) <= Start(j, size)
    ensures i < j ==> Start(i, size) + size <= Start(j, size)
  {
    if i < j {
      StartMonotone(i, j - 1, size);
    }
  }

  /** Offset `n` lies in block `n / size` and in no other. */
  lemma BlockHolding(n: nat, size: nat)
    requires size > 0
    ensures n / size >= 0
    ensures Start(n / size, size) <= n < Start(n / size, size) + size
    ensures n % size == n - Start(n / size, size)
  {
    StartIsProduct(n / size, size);
    assert n == size * (n / size) + n % size;
  }

  /** Exactly the blocks below the block count start inside the file. */
  lemma BlocksCover(length: nat, size: nat, i: nat)
    requires size > 0
    ensures i < BlockCount(length, size) <==> Start(i, size) < length
  {
    var m := length + size - 1;
    var n := BlockCount(length, size);
    BlockHolding(m, size);
    assert Start(n, size) <= m < Start(n, size) + size;
    if i < n {
      StartMonotone(i, n, size);
    } else {
      StartMonotone(n, i, size);
    }
  }

  /** The end of block `i`: the start of the next one, or the end of the file. */
  function Stop(length: nat, size: nat, i: nat): nat {
    Min(Start(i, size) + size, length)
  }

  /** What a fetched block `i` must hold. */
  function Slice(file: seq<byte>, size: nat, i: nat): (s: seq<byte>)
    requires Start(i, size) <= |file|
  {
    file[Start(i, size)..Stop(|file|, size, i)]
  }

  /** Block `i` has been fetched. */
  ghost predicate Holds(b: Block, file: seq<byte>, size: nat, i: nat) {
    Start(i, size) < |file| && b == Memory(Slice(file, size, i))
  }

  /** Every fetched block agrees with the remote file. */
  ghost predicate Coherent(blocks: seq<Block>, file: seq<byte>, size: nat) {
    && size > 0 && |blocks| == BlockCount(|file|, size)
    && forall i | 0 <= i < |blocks| :: BlockOk(blocks[i], file, size, i)
  }

  ghost predicate BlockOk(b: Block, file: seq<byte>, size: nat, i: nat) {
    match b
    case None => true
    case Known(num) => num == size
    case Memory(_) => Holds(b, file, size, i)
  }

  /** `after` is `before` with some blocks fetched. */
  ghost predicate Fetched(before: seq<Block>, after: seq<Block>) {
    && |before| == |after|
    && forall i | 0 <= i < |after| :: after[i] == before[i] || after[i].Memory?
  }

  // ---------- what a reader is shown ----------

  function Piece(b: Block, file: seq<byte>, size: nat, i: nat): (s: seq<byte>)
    requires Start(i, size) <= |file|
  {
    if b.Known? then Zeros(Stop(|file|, size, i) - Start(i, size)) else Slice(file, size, i)
  }

  /** The first `k` blocks lie inside the file. */
  ghost predicate Inside(blocks: seq<Block>, file: seq<byte>, size: nat, k: nat) {
    k <= |blocks| && (k > 0 ==> Start(k - 1, size) <= |file|)
  }

  /** The remote file with zeros where a block is only a placeholder, up to block `k`. */
  ghost function View(blocks: seq<Block>, file: seq<byte>, size: nat, k: nat): (s: seq<byte>)
    requires Inside(blocks, file, size, k)
    ensures |s| == Min(Start(k, size), |file|)
  {
    if k == 0 then [] else View(blocks, file, size, k - 1) + Piece(blocks[k - 1], file, size, k - 1)
  }

  lemma CoherentInside(blocks: seq<Block>, file: seq<byte>, size: nat)
    requires Coherent(blocks, file, size)
    ensures Inside(blocks, file, size, |blocks|) && |file| <= Start(|blocks|, size)
  {
    BlocksCover(|file|, size, |blocks|);
    if |blocks| > 0 {
      BlocksCover(|file|, size, |blocks| - 1);
    }
  }

  ghost function Whole(blocks: seq<Block>, file: seq<byte>, size: nat): (s: seq<byte>)
    requires Coherent(blocks, file, size)
    ensures |s| == |file|
  {
    CoherentInside(blocks, file, size);
    View(blocks, file, size, |blocks|)
  }

  /** The byte is in a placeholder, so a reader is shown a zero. */
  predicate Hidden(blocks: seq<Block>, size: nat, i: nat)
    requires size > 0
  {
    i / size < |blocks| && blocks[i / size].Known?
  }

  lemma InBlock(i: nat, k: nat, size: nat)
    requires size > 0 && Start(k, size) <= i < Start(k, size) + size
    ensures i / size == k
  {
    BlockHolding(i, size);
    if i / size < k {
      StartMonotone(i / size + 1, k, size);
    } else if i / size > k {
      StartMonotone(k + 1, i / size, size);
    }
  }

  lemma PieceByte(b: Block, file: seq<byte>, size: nat, k: nat, i: nat)
    requires Start(k, size) <= i < Stop(|file|, size, k)
    ensures Piece(b, file, size, k)[i - Start(k, size)] == if b.Known? then 0 else file[i]
  {
  }

  /** A reader is shown the byte that is there, or a placeholder's zero. */
  lemma {:induction false} ViewByte(blocks: seq<Block>, file: seq<byte>, size: nat, k: nat, i: nat)
    requires size > 0 && Inside(blocks, file, size, k) && i < |View(blocks, file, size, k)|
    ensures View(blocks, file, size, k)[i] == if Hidden(blocks, size, i) then 0 else file[i]
  {
    var start := Start(k - 1, size);
    if i < |View(blocks, file, size, k - 1)| {
      ViewByte(blocks, file, size, k - 1, i);
    } else {
      InBlock(i, k - 1, size);
      PieceByte(blocks[k - 1], file, size, k - 1, i);
      assert View(blocks, file, size, k)[i] == Piece(blocks[k - 1], file, size, k - 1)[i - start];
    }
  }

  lemma WholeByte(blocks: seq<Block>, file: seq<byte>, size: nat, i: nat)
    requires Coherent(blocks, file, size) && i < |file|
    ensures Whole(blocks, file, size)[i] == if Hidden(blocks, size, i) then 0 else file[i]
  {
    CoherentInside(blocks, file, size);
    ViewByte(blocks, file, size, |blocks|, i);
  }

  lemma SliceOfAppend(v: seq<byte>, p: seq<byte>, lo: nat, hi: nat)
    requires lo <= hi <= |v| + |p|
    ensures hi <= |v| ==> (v + p)[lo..hi] == v[lo..hi]
    ensures lo == |v| && hi == |v| + |p| ==> (v + p)[lo..hi] == p
  {
  }

  lemma {:induction false} PieceOfView(blocks: seq<Block>, file: seq<byte>, size: nat, k: nat, i: nat)
    requires i < k && Inside(blocks, file, size, k)
    ensures Start(i, size) <= Stop(|file|, size, i) <= |View(blocks, file, size, k)|
    ensures View(blocks, file, size, k)[Start(i, size)..Stop(|file|, size, i)] == Piece(blocks[i], file, size, i)
  {
    var v := View(blocks, file, size, k - 1);
    var p := Piece(blocks[k - 1], file, size, k - 1);
    var lo, hi := Start(i, size), Stop(|file|, size, i);
    if i < k - 1 {
      PieceOfView(blocks, file, size, k - 1, i);
    }
    assert View(blocks, file, size, k) == v + p;
    SliceOfAppend(v, p, lo, hi);
  }

  /** Without placeholders a reader is shown the remote file itself. */
  lemma {:induction false} ViewIsFile(blocks: seq<Block>, file: seq<byte>, size: nat, k: nat)
    requires Inside(blocks, file, size, k)
    requires forall i | 0 <= i < k :: !blocks[i].Known?
    ensures View(blocks, file, size, k) == file[..Min(Start(k, size), |file|)]
  {
    if k > 0 {
      ViewIsFile(blocks, file, size, k - 1);
      SplitAt(file, Start(k - 1, size), Stop(|file|, size, k - 1));
    }
  }

  lemma SplitAt(s: seq<byte>, lo: nat, hi: nat)
    requires lo <= hi <= |s|
    ensures s[..lo] + s[lo..hi] == s[..hi]
  {
  }

  lemma WholeIsFile(blocks: seq<Block>, file: seq<byte>, size: nat)
    requires Coherent(blocks, file, size)
    requires forall i | 0 <= i < |blocks| :: !blocks[i].Known?
    ensures Whole(blocks, file, size) == file
  {
    CoherentInside(blocks, file, size);
    ViewIsFile(blocks, file, size, |blocks|);
  }

  lemma SliceOfSlice(s: seq<byte>, lo: nat, hi: nat, a: nat, b: nat, from: nat, to: nat)
    requires lo <= hi <= |s| && a <= b <= hi - lo && from == lo + a && to == lo + b
    ensures s[lo..hi][a..b] == s[from..to]
  {
    assert forall i | 0 <= i < b - a :: s[lo..hi][a..b][i] == s[from..to][i];
  }

  lemma ZerosSlice(m: nat, n: nat, a: nat, b: nat)
    requires a <= b <= m && b <= n
    ensures Zeros(m)[a..b] == Zeros(n)[a..b]
  {
  }

  /** The buffer that a read copies from: a block's data, or zeros. */
  function Source(b: Block, size: nat): seq<byte> {
    if b.Memory? then b.data else Zeros(size)
  }

  /** What a read copies out of block `i` is what it shows of the file. */
  lemma SourceShows(blocks: seq<Block>, file: seq<byte>, size: nat, i: nat, a: nat, b: nat, from: nat, to: nat)
    requires Coherent(blocks, file, size) && i < |blocks| && !blocks[i].None?
    requires a <= b <= size && from == Start(i, size) + a && to == Start(i, size) + b <= |file|
    ensures b <= |Source(blocks[i], size)|
    ensures Source(blocks[i], size)[a..b] == Whole(blocks, file, size)[from..to]
  {
    var lo, hi := Start(i, size), Stop(|file|, size, i);
    assert BlockOk(blocks[i], file, size, i);
    CoherentInside(blocks, file, size);
    PieceOfView(blocks, file, size, |blocks|, i);
    SliceOfSlice(Whole(blocks, file, size), lo, hi, a, b, from, to);
    ZerosSlice(size, hi - lo, a, b);
  }

  // ---------- reads ----------

  function After(length: nat, idx: nat, count: nat): (n: nat)
    requires idx <= length
    ensures idx <= n <= length
  {
    idx + Min(count, length - idx)
  }

  /** Which reads ask only for blocks that exist: not those that reach the end of a whole number of blocks. */
  predicate ReadInBounds(length: nat, size: nat, idx: nat, count: nat)
    requires size > 0
  {
    idx + count < length || length % size != 0
  }

  /** `read` stays inside the block map exactly when `ReadInBounds` holds. */
  lemma HighBlockInMap(length: nat, size: nat, idx: nat, count: nat)
    requires size > 0 && idx <= length
    ensures After(length, idx, count) / size < BlockCount(length, size) <==> ReadInBounds(length, size, idx, count)
  {
    var n := After(length, idx, count);
    BlockHolding(n, size);
    BlocksCover(length, size, n / size);
  }

  /** The blocks a read asks for. */
  lemma ReadRange(length: nat, size: nat, idx: nat, count: nat)
    requires size > 0 && idx <= length && ReadInBounds(length, size, idx, count)
    ensures 0 <= idx / size <= After(length, idx, count) / size < BlockCount(length, size)
  {
    var n := After(length, idx, count);
    HighBlockInMap(length, size, idx, count);
    BlockHolding(idx, size);
    BlockHolding(n, size);
    if n / size < idx / size {
      StartMonotone(n / size, idx / size, size);
    }
  }
}
