/** What an open file promises: a plain byte sequence with a cursor. */
module FileSpec {
  import opened FatWords
  import opened FileLayout

  datatype Mode = Mode(readable: bool, writable: bool, append: bool)
  datatype Plain = Plain(bytes: seq<byte>, cursor: nat)
  datatype Op = Write(src: seq<byte>) | Read(count: nat) | Flush | Seek(offset: int, origin: int)
  datatype Reply = Reply(code: int, got: seq<byte>)

  const SEEK_SET: int := 0
  const SEEK_CUR: int := 1
  const SEEK_END: int := 2

  /** How many bytes fl_fread delivers, or -1. */
  function ReadCode(m: Mode, length: nat, cursor: nat, count: nat): (n: int)
    ensures n <= count && (0 < n ==> cursor + n <= length)
  {
    if !m.readable then -1
    else if count == 0 then 0
    else if cursor >= length then -1
    else if cursor + count > length then length - cursor
    else count
  }

  /** A seek of fl_fseek that is refused outright. */
  predicate SeekRefused(offset: int, origin: int)
  {
    origin == SEEK_END && offset != 0
  }

  /** Where an accepted seek goes: never outside the file. An unknown origin moves nothing. An absolute
      offset is taken as an unsigned 32-bit number, so a negative one is beyond every file below 2 GB. */
  function SeekTarget(length: nat, cursor: nat, offset: int, origin: int): nat
  {
    if origin == SEEK_SET then
      if offset % 0x1_0000_0000 <= length then offset % 0x1_0000_0000 else length
    else if origin == SEEK_CUR then
      if cursor + offset < 0 then 0 else if cursor + offset > length && offset >= 0 then length else cursor + offset
    else if origin == SEEK_END then length
    else cursor
  }

  /** What a seek does to the cursor: from the start (0), the cursor (1) or the end (2) of the file, to
      the target or to the nearer end of the file; any other request leaves it. */
  predicate SoughtTo(length: nat, was: nat, now: nat, offset: int, origin: int)
  {
    && (origin == 0 && 0 <= offset ==> now == if offset <= length then offset else length)
    && (origin == 0 && offset < 0 ==>
          now == if offset + 0x1_0000_0000 <= length then offset + 0x1_0000_0000 else length)
    && (origin == 1 && was + offset < 0 ==> now == 0)
    && (origin == 1 && 0 <= was + offset ==> now == if was + offset <= length then was + offset else length)
    && (origin == 2 && offset == 0 ==> now == length)
    && ((origin == 2 && offset != 0) || origin < 0 || origin > 2 ==> now == was)
  }

  function SeekCode(offset: int, origin: int): int
  {
    if SeekRefused(offset, origin) || !(origin == SEEK_SET || origin == SEEK_CUR || origin == SEEK_END) then -1 else 0
  }

  function WriteAt(m: Mode, p: Plain): nat
  {
    if m.append then |p.bytes| else p.cursor
  }

  function Next(m: Mode, p: Plain, op: Op): (q: Plain)
    requires p.cursor <= |p.bytes|
  {
    match op
    case Write(src) =>
      if m.writable then Plain(Overwrite(p.bytes, WriteAt(m, p), src), WriteAt(m, p) + |src|) else p
    case Read(count) =>
      var n := ReadCode(m, |p.bytes|, p.cursor, count);
      if n > 0 then Plain(p.bytes, p.cursor + n) else p
    case Flush => p
    case Seek(offset, origin) =>
      if SeekRefused(offset, origin) then p else Plain(p.bytes, SeekTarget(|p.bytes|, p.cursor, offset, origin))
  }

  function Answer(m: Mode, p: Plain, op: Op): (r: Reply)
    requires p.cursor <= |p.bytes|
  {
    match op
    case Write(src) => Reply(if m.writable then |src| else -1, [])
    case Read(count) =>
      var n := ReadCode(m, |p.bytes|, p.cursor, count);
      Reply(n, if n > 0 then p.bytes[p.cursor..p.cursor + n] else [])
    case Flush => Reply(0, [])
    case Seek(offset, origin) => Reply(SeekCode(offset, origin), [])
  }

  /** The cursor never leaves the file, and the file never shrinks. */
  lemma NextIsPlain(m: Mode, p: Plain, op: Op)
    requires p.cursor <= |p.bytes|
    ensures Next(m, p, op).cursor <= |Next(m, p, op).bytes|
    ensures |p.bytes| <= |Next(m, p, op).bytes|
  {
  }

  /** The state after a sequence of calls, and their results. */
  ghost function RunState(m: Mode, p: Plain, ops: seq<Op>): (q: Plain)
    requires p.cursor <= |p.bytes|
    ensures q.cursor <= |q.bytes| && |p.bytes| <= |q.bytes|
    decreases |ops|
  {
    if ops == [] then p
    else
      NextIsPlain(m, p, ops[0]);
      RunState(m, Next(m, p, ops[0]), ops[1..])
  }

  ghost function RunReplies(m: Mode, p: Plain, ops: seq<Op>): seq<Reply>
    requires p.cursor <= |p.bytes|
    decreases |ops|
  {
    if ops == [] then []
    else
      NextIsPlain(m, p, ops[0]);
      [Answer(m, p, ops[0])] + RunReplies(m, Next(m, p, ops[0]), ops[1..])
  }

  lemma {:induction false} RunSnoc(m: Mode, p: Plain, ops: seq<Op>, op: Op)
    requires p.cursor <= |p.bytes|
    ensures RunState(m, p, ops + [op]) == Next(m, RunState(m, p, ops), op)
    ensures RunReplies(m, p, ops + [op]) == RunReplies(m, p, ops) + [Answer(m, RunState(m, p, ops), op)]
    decreases |ops|
  {
    if ops != [] {
      NextIsPlain(m, p, ops[0]);
      assert (ops + [op])[1..] == ops[1..] + [op];
      RunSnoc(m, Next(m, p, ops[0]), ops[1..], op);
    }
  }

  /** Growth is monotone over a run. */
  lemma {:induction false} RunGrows(m: Mode, p: Plain, ops: seq<Op>, k: nat)
    requires p.cursor <= |p.bytes| && k <= |ops|
    ensures |RunState(m, p, ops[..k]).bytes| <= |RunState(m, p, ops).bytes|
    decreases |ops| - k
  {
    if k < |ops| {
      assert ops[..k + 1] == ops[..k] + [ops[k]];
      RunSnoc(m, p, ops[..k], ops[k]);
      NextIsPlain(m, RunState(m, p, ops[..k]), ops[k]);
      RunGrows(m, p, ops, k + 1);
    } else {
      assert ops[..k] == ops;
    }
  }

  /** Calls whose arguments stay in the 32-bit range of the file interface. */
  predicate InRange(m: Mode, p: Plain, op: Op)
    requires p.cursor <= |p.bytes|
  {
    match op
    case Write(src) => WriteAt(m, p) + |src| < 0x1_0000_0000
    case Read(count) => p.cursor + count < 0x1_0000_0000
    case Flush => true
    case Seek(offset, origin) =>
      -0x8000_0000 <= offset < 0x8000_0000 && (origin == SEEK_CUR ==> p.cursor + offset < 0x1_0000_0000)
  }

  ghost predicate AllInRange(m: Mode, p: Plain, ops: seq<Op>)
    requires p.cursor <= |p.bytes|
  {
    forall k :: 0 <= k < |ops| ==> InRange(m, RunState(m, p, ops[..k]), ops[k])
  }

  /** One more call of a run: it is in range, there is room for it, and it extends the run so far. */
  lemma NextCall(m: Mode, p: Plain, ops: seq<Op>, k: nat, capacity: nat, spc: nat)
    requires p.cursor <= |p.bytes| && k < |ops| && AllInRange(m, p, ops)
    requires Fits(|RunState(m, p, ops).bytes|, capacity, spc)
    ensures var q := RunState(m, p, ops[..k]);
      && InRange(m, q, ops[k])
      && Fits(|Next(m, q, ops[k]).bytes|, capacity, spc)
      && RunState(m, p, ops[..k + 1]) == Next(m, q, ops[k])
      && RunReplies(m, p, ops[..k + 1]) == RunReplies(m, p, ops[..k]) + [Answer(m, q, ops[k])]
  {
    hide Next, Answer, InRange;
    assert ops[..k + 1] == ops[..k] + [ops[k]];
    RunSnoc(m, p, ops[..k], ops[k]);
    RunGrows(m, p, ops, k + 1);
  }

  /** What is read at the place of a write is what was written. */
  lemma ReadBack(p: Plain, src: seq<byte>, append: bool)
    requires p.cursor <= |p.bytes| < 0x1_0000_0000 && src != []
    ensures var m := Mode(true, true, append);
      var pos := WriteAt(m, p);
      var q := Plain(Next(m, p, Write(src)).bytes, pos);
      && Next(m, Next(m, p, Write(src)), Seek(pos, SEEK_SET)) == q
      && Answer(m, q, Read(|src|)) == Reply(|src|, src)
      && Next(m, q, Read(|src|)).bytes == Overwrite(p.bytes, pos, src)
  {
    var m := Mode(true, true, append);
    var pos := WriteAt(m, p);
    assert Overwrite(p.bytes, pos, src)[pos..pos + |src|] == src;
  }

  /** Reading back what was written: from any state of a read/write file, what is read at the place
      of a write is what was written, and every other byte is what it was. */
  lemma WriteSeekRead(p: Plain, src: seq<byte>, append: bool)
    requires p.cursor <= |p.bytes| < 0x1_0000_0000 && src != []
    ensures var m := Mode(true, true, append);
      var pos := WriteAt(m, p);
      var run := [Write(src), Seek(pos, SEEK_SET), Read(|src|)];
      && RunReplies(m, p, run) == [Reply(|src|, []), Reply(0, []), Reply(|src|, src)]
      && forall i :: 0 <= i < |p.bytes| && !(pos <= i < pos + |src|) ==> RunState(m, p, run).bytes[i] == p.bytes[i]
  {
    var m := Mode(true, true, append);
    var pos := WriteAt(m, p);
    ReadBack(p, src, append);
    RunThree(m, p, Write(src), Seek(pos, SEEK_SET), Read(|src|));
  }

  lemma RunThree(m: Mode, p: Plain, a: Op, b: Op, c: Op)
    requires p.cursor <= |p.bytes|
    ensures var q := Next(m, p, a);
      && q.cursor <= |q.bytes| && Next(m, q, b).cursor <= |Next(m, q, b).bytes|
      && RunState(m, p, [a, b, c]) == Next(m, Next(m, q, b), c)
      && RunReplies(m, p, [a, b, c]) == [Answer(m, p, a), Answer(m, q, b), Answer(m, Next(m, q, b), c)]
  {
    hide Next, Answer;
    NextIsPlain(m, p, a);
    NextIsPlain(m, Next(m, p, a), b);
    RunSnoc(m, p, [], a);
    RunSnoc(m, p, [a], b);
    RunSnoc(m, p, [a, b], c);
    assert [] + [a] == [a] && [a] + [b] == [a, b] && [a, b] + [c] == [a, b, c];
  }

  /** The buffered bytes that belong to the file are those on the disk. */
  ghost predicate Saved(data: seq<Sector>, address: nat, buffer: seq<byte>, length: nat)
    requires |buffer| == 512
  {
    forall k :: 0 <= k < 512 && 512 * address + k < length ==>
      buffer[k] == if address < |data| then data[address][k] else 0
  }

  /** Dropping a dirty buffer changes the file exactly when some byte of it differs from the disk. */
  lemma DroppedBuffer(data: seq<Sector>, address: nat, buffer: seq<byte>, length: nat)
    requires |buffer| == 512 && length <= 0x1_0000_0000
    ensures Bytes(data, NO_SECTOR, buffer, length) == Bytes(data, address, buffer, length)
      <==> Saved(data, address, buffer, length)
  {
    var l, r := Bytes(data, NO_SECTOR, buffer, length), Bytes(data, address, buffer, length);
    if l == r {
      forall k | 0 <= k < 512 && 512 * address + k < length
        ensures buffer[k] == if address < |data| then data[address][k] else 0
      {
        var p := 512 * address + k;
        assert p / 512 == address && p % 512 == k;
        assert l[p] == r[p];
      }
    } else {
      var p :| 0 <= p < length && l[p] != r[p];
      assert p == 512 * (p / 512) + p % 512;
    }
  }
}
