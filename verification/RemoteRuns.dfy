/** Whole histories of reads and seeks on a remote file. */
module RemoteRuns {
  import opened Bytes
  import opened RemoteBlocks
  import opened RemoteIo
  import M = MemIo

  datatype Request = Reading(count: nat) | Seeking(offset: int, from: M.Position)

  datatype Cursor = Cursor(idx: nat, eof: bool)

  /** The cursor after a request: a position outside the file means its end. */
  function Moved(length: nat, c: Cursor, r: Request): (d: Cursor)
    requires c.idx <= length
    ensures d.idx <= length
  {
    match r
    case Reading(count) =>
      if c.eof then c
      else
        var next := After(length, c.idx, count);
        Cursor(next, next == length)
    case Seeking(offset, from) =>
      var target := match from { case Cur => c.idx + offset case Beg => offset case End => length + offset };
      Cursor(if 0 <= target <= length then target else length, target > length)
  }

  /** What a plain file answers. */
  function Answer(file: seq<byte>, c: Cursor, r: Request): seq<byte>
    requires c.idx <= |file|
  {
    if r.Reading? && !c.eof then file[c.idx..After(|file|, c.idx, r.count)] else []
  }

  /** A read that is carried out answers with the bytes from the cursor on, up to its count or the end, moves behind
      them, and sets the flag at the end; then no read does anything until a seek that goes no further than the end. */
  lemma AnswerIs(file: seq<byte>, c: Cursor, r: Request)
    requires c.idx <= |file|
    ensures var s, d := Answer(file, c, r), Moved(|file|, c, r);
            match r
            case Reading(count) =>
              if c.eof then s == [] && d == c
              else
                && s == file[c.idx..if c.idx + count <= |file| then c.idx + count else |file|]
                && d.idx == c.idx + |s| && (d.eof <==> d.idx == |file|)
            case Seeking(offset, from) =>
              var t := (if from.Beg? then 0 else if from.Cur? then c.idx else |file|) + offset;
              && s == [] && d.idx == (if 0 <= t <= |file| then t else |file|) && (d.eof <==> t > |file|)
  {
  }

  function Answers(file: seq<byte>, c: Cursor, rs: seq<Request>): seq<seq<byte>>
    requires c.idx <= |file|
    decreases |rs|
  {
    if rs == [] then [] else [Answer(file, c, rs[0])] + Answers(file, Moved(|file|, c, rs[0]), rs[1..])
  }

  /** Every read asks only for blocks that exist. */
  predicate InBounds(length: nat, size: nat, c: Cursor, rs: seq<Request>)
    requires size > 0 && c.idx <= length
    decreases |rs|
  {
    rs == []
    || ((rs[0].Reading? && !c.eof ==> ReadInBounds(length, size, c.idx, rs[0].count))
        && InBounds(length, size, Moved(length, c, rs[0]), rs[1..]))
  }

  /** Some read that is carried out gets to the end of the file. */
  predicate GetsToEnd(length: nat, c: Cursor, rs: seq<Request>)
    requires c.idx <= length
    decreases |rs|
  {
    rs != []
    && ((rs[0].Reading? && !c.eof && Moved(length, c, rs[0]).eof)
        || GetsToEnd(length, Moved(length, c, rs[0]), rs[1..]))
  }

  /** A history stays inside the block map unless a read gets to the end of a whole number of blocks. */
  lemma {:induction false} InBoundsIff(length: nat, size: nat, c: Cursor, rs: seq<Request>)
    requires size > 0 && c.idx <= length
    ensures InBounds(length, size, c, rs) <==> length % size != 0 || !GetsToEnd(length, c, rs)
    decreases |rs|
  {
    if rs != [] {
      InBoundsIff(length, size, Moved(length, c, rs[0]), rs[1..]);
    }
  }

  function Joined(answers: seq<seq<byte>>): seq<byte> {
    if answers == [] then [] else answers[0] + Joined(answers[1..])
  }

  function Total(rs: seq<Request>): nat {
    if rs == [] then 0 else (if rs[0].Reading? then rs[0].count else 0) + Total(rs[1..])
  }

  lemma {:induction false} NothingMore(file: seq<byte>, c: Cursor, rs: seq<Request>)
    requires c.idx <= |file| && c.eof && forall i | 0 <= i < |rs| :: rs[i].Reading?
    ensures Joined(Answers(file, c, rs)) == []
    decreases |rs|
  {
    if rs != [] {
      NothingMore(file, c, rs[1..]);
    }
  }

  /** However reading on is cut into reads, it returns the bytes from the cursor on, each once and in order. */
  lemma {:induction false} ReadsJoin(file: seq<byte>, c: Cursor, rs: seq<Request>)
    requires c.idx <= |file| && !c.eof && forall i | 0 <= i < |rs| :: rs[i].Reading?
    ensures Joined(Answers(file, c, rs)) == file[c.idx..After(|file|, c.idx, Total(rs))]
    decreases |rs|
  {
    if rs != [] {
      var d, rest := Moved(|file|, c, rs[0]), rs[1..];
      if d.eof {
        NothingMore(file, d, rest);
      } else {
        ReadsJoin(file, d, rest);
        var end := After(|file|, d.idx, Total(rest));
        assert end == After(|file|, c.idx, Total(rs));
        assert file[c.idx..d.idx] + file[d.idx..end] == file[c.idx..end];
      }
    }
  }

  ghost function CursorOf(io: RemoteIo): Cursor
    reads io
  {
    Cursor(io.idx, io.eof)
  }

  function CursorAt(length: nat, c: Cursor, rs: seq<Request>, k: nat): (d: Cursor)
    requires c.idx <= length && k <= |rs|
    ensures d.idx <= length
  {
    if k == 0 then c else Moved(length, CursorAt(length, c, rs, k - 1), rs[k - 1])
  }

  /** The plain file's answer, with zeros for bytes in placeholders. */
  ghost predicate Shows(file: seq<byte>, size: nat, blocks: seq<Block>, c: Cursor, r: Request, answer: seq<byte>)
    requires size > 0 && c.idx <= |file|
  {
    var plain := Answer(file, c, r);
    && |answer| == |plain|
    && forall k | 0 <= k < |answer| ::
         answer[k] == plain[k] || (answer[k] == 0 && Hidden(blocks, size, c.idx + k))
  }

  /** Fetching more only uncovers bytes. */
  lemma HiddenBefore(before: seq<Block>, now: seq<Block>, size: nat, i: nat)
    requires size > 0 && Fetched(before, now) && Hidden(now, size, i)
    ensures Hidden(before, size, i)
  {
    assert now[i / size] == before[i / size];
  }

  lemma ByteShown(before: seq<Block>, now: seq<Block>, file: seq<byte>, size: nat, i: nat)
    requires Coherent(now, file, size) && Fetched(before, now) && i < |file|
    ensures Whole(now, file, size)[i] == file[i] || (Whole(now, file, size)[i] == 0 && Hidden(before, size, i))
  {
    WholeByte(now, file, size, i);
    if Hidden(now, size, i) {
      HiddenBefore(before, now, size, i);
    }
  }

  /** Bytes that a reader is shown after more blocks have been fetched. */
  lemma SliceShown(before: seq<Block>, now: seq<Block>, file: seq<byte>, size: nat, from: nat, to: nat,
                   whole: seq<byte>)
    requires Coherent(now, file, size) && Fetched(before, now) && from <= to <= |file|
    requires whole == Whole(now, file, size)
    ensures forall k | 0 <= k < to - from ::
              whole[from..to][k] == file[from..to][k] || (whole[from..to][k] == 0 && Hidden(before, size, from + k))
  {
    forall k | 0 <= k < to - from
      ensures whole[from..to][k] == file[from..to][k] || (whole[from..to][k] == 0 && Hidden(before, size, from + k))
    {
      ByteShown(before, now, file, size, from + k);
    }
  }

  /** One request to the block cache. */
  method ServeOne(io: RemoteIo, r: Request) returns (answer: seq<byte>)
    requires io.Valid() && io.isMalloced
    requires InBounds(io.size, io.blockSize, CursorOf(io), [r])
    modifies io`idx, io`eof, io.blocks, io.server`requests
    ensures io.Valid() && io.isMalloced && Fetched(old(io.blocks[..]), io.blocks[..])
    ensures Shows(io.server.file, io.blockSize, old(io.blocks[..]), old(CursorOf(io)), r, answer)
    ensures CursorOf(io) == Moved(io.size, old(CursorOf(io)), r)
  {
    match r {
      case Reading(count) =>
        ghost var from, before := io.idx, io.blocks[..];
        answer := io.Read(count);
        if !old(io.eof) {
          SliceShown(before, io.blocks[..], io.server.file, io.blockSize, from, io.idx,
                     Whole(io.blocks[..], io.server.file, io.blockSize));
        }
      case Seeking(offset, from) =>
        var _ := io.Seek(offset, from);
        answer := [];
    }
  }

  /** A whole history: the block cache answers every request as the plain remote file would, but for zeros in what was
      a placeholder at the start. */
  method Serve(io: RemoteIo, rs: seq<Request>) returns (answers: seq<seq<byte>>)
    requires io.Valid() && io.isMalloced
    requires InBounds(io.size, io.blockSize, CursorOf(io), rs)
    modifies io`idx, io`eof, io.blocks, io.server`requests
    ensures io.Valid() && io.isMalloced && Fetched(old(io.blocks[..]), io.blocks[..])
    ensures |answers| == |rs| && CursorOf(io) == CursorAt(io.size, old(CursorOf(io)), rs, |rs|)
    ensures forall k | 0 <= k < |rs| ::
              Shows(io.server.file, io.blockSize, old(io.blocks[..]), CursorAt(io.size, old(CursorOf(io)), rs, k),
                    rs[k], answers[k])
    ensures (forall i | 0 <= i < io.blocks.Length :: !old(io.blocks[i]).Known?) ==>
              answers == Answers(io.server.file, old(CursorOf(io)), rs)
  {
    answers := [];
    ghost var start, before := CursorOf(io), io.blocks[..];
    for i := 0 to |rs|
      invariant io.Valid() && io.isMalloced && Fetched(before, io.blocks[..])
      invariant CursorOf(io) == CursorAt(io.size, start, rs, i)
      invariant InBounds(io.size, io.blockSize, CursorOf(io), rs[i..])
      invariant |answers| == i && Told(io.server.file, io.blockSize, before, start, rs, answers)
    {
      ghost var c, now := CursorOf(io), io.blocks[..];
      FirstOf(rs, i, io.size, io.blockSize, c);
      var answer := ServeOne(io, rs[i]);
      ShownBefore(io.server.file, io.blockSize, before, now, c, rs[i], answer);
      answers := answers + [answer];
    }
    if forall i | 0 <= i < |before| :: !before[i].Known? {
      ToldPlainly(io.server.file, io.blockSize, before, start, rs, answers);
    }
  }

  /** The first requests have been answered. */
  ghost predicate Told(file: seq<byte>, size: nat, blocks: seq<Block>, c: Cursor, rs: seq<Request>,
                       answers: seq<seq<byte>>)
    requires size > 0 && c.idx <= |file|
  {
    && |answers| <= |rs|
    && forall k | 0 <= k < |answers| :: Shows(file, size, blocks, CursorAt(|file|, c, rs, k), rs[k], answers[k])
  }

  lemma ShownBefore(file: seq<byte>, size: nat, before: seq<Block>, now: seq<Block>, c: Cursor, r: Request,
                    answer: seq<byte>)
    requires size > 0 && c.idx <= |file| && Fetched(before, now) && Shows(file, size, now, c, r, answer)
    ensures Shows(file, size, before, c, r, answer)
  {
    var plain := Answer(file, c, r);
    forall k | 0 <= k < |answer|
      ensures answer[k] == plain[k] || (answer[k] == 0 && Hidden(before, size, c.idx + k))
    {
      if answer[k] != plain[k] {
        HiddenBefore(before, now, size, c.idx + k);
      }
    }
  }

  lemma {:induction false} AnswersAt(file: seq<byte>, c: Cursor, rs: seq<Request>, k: nat)
    requires c.idx <= |file| && k < |rs|
    ensures |Answers(file, c, rs)| == |rs|
    ensures Answers(file, c, rs)[k] == Answer(file, CursorAt(|file|, c, rs, k), rs[k])
    decreases |rs|
  {
    var d := Moved(|file|, c, rs[0]);
    if k > 0 {
      AnswersAt(file, d, rs[1..], k - 1);
      CursorAfter(|file|, c, rs, k);
    } else if |rs| > 1 {
      AnswersAt(file, d, rs[1..], 0);
    }
  }

  lemma {:induction false} CursorAfter(length: nat, c: Cursor, rs: seq<Request>, k: nat)
    requires c.idx <= length && 0 < k <= |rs|
    ensures CursorAt(length, c, rs, k) == CursorAt(length, Moved(length, c, rs[0]), rs[1..], k - 1)
    decreases k
  {
    if k > 1 {
      CursorAfter(length, c, rs, k - 1);
      assert rs[1..][k - 2] == rs[k - 1];
    }
  }

  lemma {:induction false} AnswersLength(file: seq<byte>, c: Cursor, rs: seq<Request>)
    requires c.idx <= |file|
    ensures |Answers(file, c, rs)| == |rs|
    decreases |rs|
  {
    if rs != [] {
      AnswersLength(file, Moved(|file|, c, rs[0]), rs[1..]);
    }
  }

  lemma ShownPlainly(file: seq<byte>, size: nat, blocks: seq<Block>, c: Cursor, r: Request, answer: seq<byte>)
    requires size > 0 && c.idx <= |file| && Shows(file, size, blocks, c, r, answer)
    requires forall i | 0 <= i < |blocks| :: !blocks[i].Known?
    ensures answer == Answer(file, c, r)
  {
    assert forall k | 0 <= k < |answer| :: answer[k] == Answer(file, c, r)[k];
  }

  /** Without placeholders the answers are the plain file's. */
  lemma ToldPlainly(file: seq<byte>, size: nat, blocks: seq<Block>, c: Cursor, rs: seq<Request>,
                    answers: seq<seq<byte>>)
    requires size > 0 && c.idx <= |file| && |answers| == |rs| && Told(file, size, blocks, c, rs, answers)
    requires forall i | 0 <= i < |blocks| :: !blocks[i].Known?
    ensures answers == Answers(file, c, rs)
  {
    AnswersLength(file, c, rs);
    forall k | 0 <= k < |rs| ensures answers[k] == Answers(file, c, rs)[k] {
      AnswersAt(file, c, rs, k);
      ShownPlainly(file, size, blocks, CursorAt(|file|, c, rs, k), rs[k], answers[k]);
    }
  }

  lemma FirstOf(rs: seq<Request>, i: nat, length: nat, size: nat, c: Cursor)
    requires i < |rs| && size > 0 && c.idx <= length && InBounds(length, size, c, rs[i..])
    ensures InBounds(length, size, c, [rs[i]]) && InBounds(length, size, Moved(length, c, rs[i]), rs[i + 1..])
  {
    assert rs[i..][1..] == rs[i + 1..] && [rs[i]][1..] == [];
  }
}
