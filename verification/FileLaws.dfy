/** What the calls of a file mean to a program that makes them, told by their effects alone. */
module FileLaws {
  import opened FatWords
  import opened FileLayout
  import opened FileSpec

  /** The bytes of all replies, one behind the other. */
  function Gathered(replies: seq<Reply>): seq<byte> {
    if replies == [] then [] else replies[0].got + Gathered(replies[1..])
  }

  function Reads(count: nat, n: nat): (ops: seq<Op>)
    ensures |ops| == n
  {
    seq(n, _ => Read(count))
  }

  lemma RunOne(m: Mode, p: Plain, op: Op)
    requires p.cursor <= |p.bytes|
    ensures RunState(m, p, [op]) == Next(m, p, op) && RunReplies(m, p, [op]) == [Answer(m, p, op)]
  {
    NextIsPlain(m, p, op);
    assert [op][1..] == [];
  }

  lemma RunTwo(m: Mode, p: Plain, a: Op, b: Op)
    requires p.cursor <= |p.bytes|
    ensures Next(m, p, a).cursor <= |Next(m, p, a).bytes|
    ensures RunState(m, p, [a, b]) == Next(m, Next(m, p, a), b)
    ensures RunReplies(m, p, [a, b]) == [Answer(m, p, a), Answer(m, Next(m, p, a), b)]
  {
    hide Next, Answer;
    NextIsPlain(m, p, a);
    RunOne(m, p, a);
    RunSnoc(m, p, [a], b);
    assert [a] + [b] == [a, b];
  }

  /** One read: as many bytes as asked for or as there are, from the cursor on; -1 exactly if the file is
      not readable, or something is asked for at or behind the end. */
  lemma ReadMeaning(m: Mode, p: Plain, count: nat)
    requires p.cursor <= |p.bytes|
    ensures var q, reply := RunState(m, p, [Read(count)]), RunReplies(m, p, [Read(count)])[0];
      var left := |p.bytes| - p.cursor;
      && q.bytes == p.bytes
      && (reply.code == -1 <==> !m.readable || (count > 0 && left == 0))
      && (m.readable && (left > 0 || count == 0) ==>
            && reply.code == (if count < left then count else left)
            && reply.got == p.bytes[p.cursor..p.cursor + reply.code]
            && q.cursor == p.cursor + reply.code)
      && (reply.code == -1 ==> reply.got == [] && q == p)
  {
    RunOne(m, p, Read(count));
  }

  /** Reading in pieces of any size until -1 delivers everything from the cursor on, whole and in order,
      in full pieces up to the last. */
  lemma {:induction false} ReadToEnd(m: Mode, p: Plain, count: nat) returns (n: nat)
    requires p.cursor <= |p.bytes| && m.readable && count > 0
    ensures var replies := RunReplies(m, p, Reads(count, n + 1));
      && |replies| == n + 1 && replies[n] == Reply(-1, [])
      && (forall i :: 0 <= i < n ==> 0 < replies[i].code == |replies[i].got| <= count)
      && (forall i :: 0 <= i < n - 1 ==> replies[i].code == count)
      && Gathered(replies) == p.bytes[p.cursor..]
    ensures RunState(m, p, Reads(count, n + 1)) == Plain(p.bytes, |p.bytes|)
    decreases |p.bytes| - p.cursor
  {
    hide Next, Answer, Reads, Gathered;
    var q, first := Next(m, p, Read(count)), Answer(m, p, Read(count));
    OnePiece(m, p, count);
    if p.cursor == |p.bytes| {
      n := 0;
    } else {
      n := ReadToEnd(m, q, count);
      var rest := RunReplies(m, q, Reads(count, n + 1));
      ReadsCons(m, p, count, n + 1);
      GatheredCons(first, rest);
      Joined(p.bytes, p.cursor, q.cursor);
      if n > 0 {
        PieceIsFull(m, p, q, count, rest);
      }
      n := n + 1;
    }
  }

  lemma Joined(bytes: seq<byte>, c: nat, d: nat)
    requires c <= d <= |bytes|
    ensures bytes[c..d] + bytes[d..] == bytes[c..]
  {
  }

  lemma OnePiece(m: Mode, p: Plain, count: nat)
    requires p.cursor <= |p.bytes| && m.readable && count > 0
    ensures var q, first := Next(m, p, Read(count)), Answer(m, p, Read(count));
      && q.bytes == p.bytes && p.cursor <= q.cursor <= |p.bytes| && Reads(count, 1) == [Read(count)]
      && RunState(m, p, [Read(count)]) == q && RunReplies(m, p, [Read(count)]) == [first]
      && Gathered([first]) == first.got
      && first.got == p.bytes[p.cursor..q.cursor]
      && (if p.cursor < |p.bytes| then 0 < first.code == |first.got| <= count && p.cursor < q.cursor
          else first == Reply(-1, []) && q == p)
  {
    RunOne(m, p, Read(count));
    assert Reads(count, 1) == [Read(count)];
    GatheredCons(Answer(m, p, Read(count)), []);
  }

  lemma ReadsCons(m: Mode, p: Plain, count: nat, n: nat)
    requires p.cursor <= |p.bytes|
    ensures Next(m, p, Read(count)).cursor <= |Next(m, p, Read(count)).bytes|
    ensures RunReplies(m, p, Reads(count, n + 1))
         == [Answer(m, p, Read(count))] + RunReplies(m, Next(m, p, Read(count)), Reads(count, n))
    ensures RunState(m, p, Reads(count, n + 1)) == RunState(m, Next(m, p, Read(count)), Reads(count, n))
  {
    hide Next, Answer;
    NextIsPlain(m, p, Read(count));
    assert Reads(count, n + 1)[1..] == Reads(count, n);
  }

  lemma GatheredCons(first: Reply, rest: seq<Reply>)
    ensures Gathered([first] + rest) == first.got + Gathered(rest)
  {
    assert ([first] + rest)[1..] == rest;
  }

  /** A piece with something behind it is a full one. */
  lemma PieceIsFull(m: Mode, p: Plain, q: Plain, count: nat, rest: seq<Reply>)
    requires p.cursor < |p.bytes| && m.readable && count > 0 && q == Next(m, p, Read(count))
    requires |rest| > 1 && 0 < rest[0].code && rest == RunReplies(m, q, Reads(count, |rest|))
    ensures Answer(m, p, Read(count)).code == count
  {
    ReadsCons(m, q, count, |rest| - 1);
  }

  /** One write: at the cursor, or in append mode at the end; nothing else changes. */
  lemma WriteMeaning(m: Mode, p: Plain, src: seq<byte>)
    requires p.cursor <= |p.bytes|
    ensures var q, code := RunState(m, p, [Write(src)]), RunReplies(m, p, [Write(src)])[0].code;
      && (!m.writable ==> q == p && code == -1)
      && (m.writable ==> code == |src|)
      && (m.writable && m.append ==> q == Plain(p.bytes + src, |p.bytes| + |src|))
      && (m.writable && !m.append ==>
            && q.cursor == p.cursor + |src|
            && q.bytes[p.cursor..q.cursor] == src
            && q.bytes[..p.cursor] == p.bytes[..p.cursor]
            && (if q.cursor < |p.bytes| then |q.bytes| == |p.bytes| && q.bytes[q.cursor..] == p.bytes[q.cursor..]
                else |q.bytes| == q.cursor))
  {
    RunOne(m, p, Write(src));
  }

  /** Where a seek leads, from the start (0), the cursor (1) and the end (2): targets before the start or
      behind the end stop there. A negative offset from the start is taken as an unsigned number. */
  lemma SeekMeaning(m: Mode, p: Plain, offset: int, origin: int)
    requires p.cursor <= |p.bytes| && -0x8000_0000 <= offset < 0x8000_0000
    ensures var q := RunState(m, p, [Seek(offset, origin)]); var size, to := |p.bytes|, p.cursor + offset;
      && q.bytes == p.bytes
      && (origin == 0 && 0 <= offset <= size ==> q.cursor == offset)
      && (origin == 0 && offset > size ==> q.cursor == size)
      && (origin == 0 && offset < 0 ==>
            q.cursor == if size < 0x1_0000_0000 + offset then size else 0x1_0000_0000 + offset)
      && (origin == 1 ==> q.cursor == if to < 0 then 0 else if to > size then size else to)
      && (origin == 2 && offset == 0 ==> q.cursor == size)
      && ((origin == 2 && offset != 0) || origin < 0 || origin > 2 ==> q == p)
    ensures RunReplies(m, p, [Seek(offset, origin)])
         == [Reply(if origin == 0 || origin == 1 || (origin == 2 && offset == 0) then 0 else -1, [])]
  {
    RunOne(m, p, Seek(offset, origin));
  }

  /** Seeking to the end and writing appends; reading there gives -1. */
  lemma SeekToEnd(m: Mode, p: Plain, src: seq<byte>, count: nat)
    requires p.cursor <= |p.bytes| && count > 0
    ensures m.writable ==> RunState(m, p, [Seek(0, 2), Write(src)]) == Plain(p.bytes + src, |p.bytes| + |src|)
    ensures RunReplies(m, p, [Seek(0, 2), Read(count)]) == [Reply(0, []), Reply(-1, [])]
  {
    RunTwo(m, p, Seek(0, 2), Write(src));
    RunTwo(m, p, Seek(0, 2), Read(count));
  }

  /** A relative seek and a read of one byte give the byte at that distance. */
  lemma SeekAndRead(m: Mode, p: Plain, offset: int)
    requires p.cursor <= |p.bytes| && m.readable && 0 <= p.cursor + offset <= |p.bytes|
    ensures RunReplies(m, p, [Seek(offset, 1), Read(1)])
         == [Reply(0, []),
             if p.cursor + offset < |p.bytes| then Reply(1, [p.bytes[p.cursor + offset]]) else Reply(-1, [])]
  {
    RunTwo(m, p, Seek(offset, 1), Read(1));
    var to := p.cursor + offset;
    if to < |p.bytes| {
      assert p.bytes[to..to + 1] == [p.bytes[to]];
    }
  }
}
