// Files held in memory: what writes, seeks and truncates leave in the buffer, and what reads return.
module MemoryFile {
  import opened Wrappers
  import opened Bytes

  function Zeros(n: nat): (z: bytes)
    ensures |z| == n
    ensures forall i | 0 <= i < n :: z[i] == 0
  {
    seq(n, i => 0)
  }

  /** std::string::resize. */
  function Resize(b: bytes, size: nat): bytes {
    if size <= |b| then b[..size] else b + Zeros(size - |b|)
  }

  /** Positioned write: the buffer grows to hold the data, then the data is copied in. */
  function WriteAt(b: bytes, location: nat, data: bytes): bytes {
    var grown := if location + |data| > |b| then Resize(b, location + |data|) else b;
    grown[..location] + data + grown[location + |data|..]
  }

  function Min(a: nat, b: nat): nat { if a <= b then a else b }

  /** Sequential read: what is left, at most n bytes. */
  function ReadNext(b: bytes, position: nat, n: nat): bytes {
    if position >= |b| then [] else b[position..Min(position + n, |b|)]
  }

  // ---- the simple model: the history of a handle ----

  /** Calls with a location, and calls that work at the handle's position. */
  datatype Op =
    | Write(location: nat, data: bytes)
    | Truncate(size: nat)
    | WriteHere(data: bytes)
    | ReadHere(n: nat)
    | Seek(to: nat)
    | Reset

  /** The position is that of the last seek, moved on by the bytes written and read since. */
  function Position(ops: seq<Op>): nat
    decreases |ops|, 0
  {
    if |ops| == 0 then 0
    else
      var before := Position(ops[..|ops| - 1]);
      match ops[|ops| - 1]
      case Seek(to) => to
      case Reset => 0
      case WriteHere(data) => before + |data|
      case ReadHere(n) =>
        var size := Size(ops[..|ops| - 1]);
        before + Min(n, if size > before then size - before else 0)
      case _ => before
  }

  /** The last call, with its location made explicit. */
  function Located(ops: seq<Op>): Op
    requires |ops| > 0
    decreases |ops|, 0
  {
    match ops[|ops| - 1]
    case WriteHere(data) => Write(Position(ops[..|ops| - 1]), data)
    case op => op
  }

  function Size(ops: seq<Op>): nat
    decreases |ops|, 1
  {
    if |ops| == 0 then 0
    else
      var before := Size(ops[..|ops| - 1]);
      match Located(ops)
      case Write(location, data) => if location + |data| > before then location + |data| else before
      case Truncate(size) => size
      case _ => before
  }

  /** The last write to a byte wins; bytes never written, or cut off since, are zero. */
  function ByteAt(ops: seq<Op>, i: nat): byte {
    if |ops| == 0 then 0
    else
      match Located(ops)
      case Write(location, data) =>
        if location <= i < location + |data| then data[i - location] else ByteAt(ops[..|ops| - 1], i)
      case Truncate(size) => if i < size then ByteAt(ops[..|ops| - 1], i) else 0
      case _ => ByteAt(ops[..|ops| - 1], i)
  }

  lemma {:induction false} BeyondTheEndIsZero(ops: seq<Op>, i: nat)
    requires i >= Size(ops)
    ensures ByteAt(ops, i) == 0
  {
    if |ops| > 0 && (Located(ops).Truncate? ==> i < Located(ops).size) {
      BeyondTheEndIsZero(ops[..|ops| - 1], i);
    }
  }

  /** The buffer holds what the history says. */
  ghost predicate Holds(b: bytes, ops: seq<Op>) {
    |b| == Size(ops) && forall i | 0 <= i < |b| :: b[i] == ByteAt(ops, i)
  }

  /** The bytes of the history from `location` on, cut at the end. */
  ghost predicate Shows(r: bytes, ops: seq<Op>, location: nat) {
    location + |r| <= Size(ops) && forall i | 0 <= i < |r| :: r[i] == ByteAt(ops, location + i)
  }

  /** A write, wherever its location comes from. */
  lemma WriteKeepsHistory(b: bytes, ops: seq<Op>, op: Op)
    requires Holds(b, ops) && Located(ops + [op]).Write?
    ensures
      var write := Located(ops + [op]);
      Holds(WriteAt(b, write.location, write.data), ops + [op])
  {
    var ops' := ops + [op];
    assert ops'[..|ops|] == ops;
    var Write(location, data) := Located(ops');
    forall i | 0 <= i < |WriteAt(b, location, data)|
      ensures WriteAt(b, location, data)[i] == ByteAt(ops', i)
    {
      if i >= |b| {
        BeyondTheEndIsZero(ops, i);
      }
    }
  }

  /** A write with a location of its own leaves the position alone. */
  lemma PositionedWrite(b: bytes, ops: seq<Op>, location: nat, data: bytes)
    requires Holds(b, ops)
    ensures Holds(WriteAt(b, location, data), ops + [Write(location, data)])
    ensures Position(ops + [Write(location, data)]) == Position(ops)
    ensures |WriteAt(b, location, data)| == if location + |data| > |b| then location + |data| else |b|
  {
    assert (ops + [Write(location, data)])[..|ops|] == ops;
    WriteKeepsHistory(b, ops, Write(location, data));
  }

  /** A file that is already there counts as written at the start. */
  lemma WrittenAtStart(data: bytes)
    ensures Holds(data, [Write(0, data)]) && Position([Write(0, data)]) == 0
  {
    var ops := [Write(0, data)];
    assert ops[..0] == [];
    assert Size(ops) == |data|;
    assert forall i | 0 <= i < |data| :: ByteAt(ops, i) == data[i];
  }

  lemma TruncateKeepsHistory(b: bytes, ops: seq<Op>, size: nat)
    requires Holds(b, ops)
    ensures Holds(Resize(b, size), ops + [Truncate(size)])
    ensures Position(ops + [Truncate(size)]) == Position(ops)
  {
    var ops' := ops + [Truncate(size)];
    assert ops'[..|ops|] == ops;
    forall i | 0 <= i < size
      ensures Resize(b, size)[i] == ByteAt(ops', i)
    {
      if i >= |b| {
        BeyondTheEndIsZero(ops, i);
      }
    }
  }

  /** Seeks, resets and reads leave the bytes alone. */
  lemma MoveKeepsHistory(b: bytes, ops: seq<Op>, op: Op)
    requires Holds(b, ops) && (op.Seek? || op.Reset? || op.ReadHere?)
    ensures Holds(b, ops + [op])
  {
    assert (ops + [op])[..|ops|] == ops;
  }

  /** Two histories leave the same file and the same position. */
  ghost predicate Equivalent(a: seq<Op>, b: seq<Op>) {
    Size(a) == Size(b) && Position(a) == Position(b) && forall i: nat :: ByteAt(a, i) == ByteAt(b, i)
  }

  function WritesHere(pieces: seq<bytes>): seq<Op> {
    seq(|pieces|, i requires 0 <= i < |pieces| => WriteHere(pieces[i]))
  }

  /** One more sequential write: where it lands and what it does. */
  lemma AfterWriteHere(ops: seq<Op>, data: bytes)
    ensures
      var ops', at := ops + [WriteHere(data)], Position(ops);
      && Position(ops') == at + |data|
      && Size(ops') == (if at + |data| > Size(ops) then at + |data| else Size(ops))
      && forall i: nat :: ByteAt(ops', i) == if at <= i < at + |data| then data[i - at] else ByteAt(ops, i)
  {
    assert (ops + [WriteHere(data)])[..|ops|] == ops;
  }

  /** A sequential write is the positioned write at the position. */
  lemma WriteAtPosition(ops: seq<Op>, data: bytes)
    ensures
      var here, placed := ops + [WriteHere(data)], ops + [Write(Position(ops), data)];
      && Size(here) == Size(placed)
      && (forall i: nat :: ByteAt(here, i) == ByteAt(placed, i))
      && Position(here) == Position(placed) + |data| == Position(ops) + |data|
  {
    AfterWriteHere(ops, data);
    assert (ops + [Write(Position(ops), data)])[..|ops|] == ops;
  }

  lemma OneMoreWrite(ops: seq<Op>, split: seq<Op>, front: bytes, last: bytes)
    requires Equivalent(split, ops + [WriteHere(front)])
    ensures Equivalent(split + [WriteHere(last)], ops + [WriteHere(front + last)])
  {
    AfterWriteHere(split, last);
    AfterWriteHere(ops, front);
    AfterWriteHere(ops, front + last);
    hide Position, Size, ByteAt;
    var at := Position(ops);
    forall i: nat
      ensures ByteAt(split + [WriteHere(last)], i) == ByteAt(ops + [WriteHere(front + last)], i)
    {
      if at + |front| <= i < at + |front| + |last| {
        assert (front + last)[i - at] == last[i - (at + |front|)];
      }
    }
  }

  /** However the data is split into sequential writes, the file and the position are those of one write. */
  lemma {:induction false} SplitWrites(ops: seq<Op>, pieces: seq<bytes>)
    requires pieces != []
    ensures Equivalent(ops + WritesHere(pieces), ops + [WriteHere(Concat(pieces))])
  {
    var n := |pieces| - 1;
    var front, last := pieces[..n], pieces[n];
    assert Concat(pieces) == Concat(front) + last;
    assert ops + WritesHere(pieces) == ops + WritesHere(front) + [WriteHere(last)];
    if n == 0 {
      assert Concat(pieces) == last;
      assert ops + WritesHere(pieces) == ops + [WriteHere(Concat(pieces))];
    } else {
      SplitWrites(ops, front);
      OneMoreWrite(ops, ops + WritesHere(front), Concat(front), last);
    }
  }

  /** A positioned write leaves the file of a seek followed by a sequential write, and the position where it was. */
  lemma SeekThenWrite(ops: seq<Op>, location: nat, data: bytes)
    ensures
      var sought, placed := ops + [Seek(location)] + [WriteHere(data)], ops + [Write(location, data)];
      && Size(sought) == Size(placed)
      && (forall i: nat :: ByteAt(sought, i) == ByteAt(placed, i))
      && Position(sought) == location + |data|
      && Position(placed) == Position(ops)
  {
    var sought := ops + [Seek(location)];
    AfterWriteHere(sought, data);
    assert sought[..|ops|] == ops;
    assert (ops + [Write(location, data)])[..|ops|] == ops;
    assert Position(sought) == location && Size(sought) == Size(ops);
    assert forall i: nat :: ByteAt(sought, i) == ByteAt(ops, i);
  }

  /** After a reset, sequential calls start over: a read gives the first bytes of the file. */
  lemma ResetThenRead(b: bytes, ops: seq<Op>, n: nat)
    requires Holds(b, ops)
    ensures
      var ops' := ops + [Reset];
      && Holds(b, ops')
      && ReadNext(b, Position(ops'), n) == b[..Min(n, |b|)]
      && Position(ops' + [ReadHere(n)]) == Min(n, |b|)
  {
    var ops' := ops + [Reset];
    assert ops'[..|ops|] == ops && (ops' + [ReadHere(n)])[..|ops'|] == ops';
    MoveKeepsHistory(b, ops, Reset);
  }

  // ---- reading ----

  /** A run of sequential reads: the bytes returned, together, and the final position. */
  function ReadRun(b: bytes, position: nat, sizes: seq<nat>): (bytes, nat) {
    if |sizes| == 0 then ([], position)
    else
      var (front, at) := ReadRun(b, position, sizes[..|sizes| - 1]);
      var last := ReadNext(b, at, sizes[|sizes| - 1]);
      (front + last, at + |last|)
  }

  function Sum(sizes: seq<nat>): nat {
    if |sizes| == 0 then 0 else Sum(sizes[..|sizes| - 1]) + sizes[|sizes| - 1]
  }

  /** Where a read of n bytes from the position ends: the end of the file, unless the position is past it already. */
  function ReadEnd(b: bytes, position: nat, n: nat): nat {
    if position >= |b| then position else Min(position + n, |b|)
  }

  lemma ReadNextExtends(b: bytes, position: nat, done: nat, n: nat)
    ensures
      var at, end := ReadEnd(b, position, done), ReadEnd(b, position, done + n);
      ReadNext(b, position, done) + ReadNext(b, at, n) == ReadNext(b, position, done + n)
      && at + |ReadNext(b, at, n)| == end
  {
  }

  /** However a read is split up, from wherever it starts, the bytes and the final position are those of one read. */
  lemma {:induction false} SplitReads(b: bytes, position: nat, sizes: seq<nat>)
    ensures ReadRun(b, position, sizes) == (ReadNext(b, position, Sum(sizes)), ReadEnd(b, position, Sum(sizes)))
    ensures position >= |b| ==> ReadRun(b, position, sizes) == ([], position)
  {
    hide ReadNext;
    if |sizes| > 0 {
      var front, last := sizes[..|sizes| - 1], sizes[|sizes| - 1];
      SplitReads(b, position, front);
      ReadNextExtends(b, position, Sum(front), last);
    }
    ReadNothing(b, position);
  }

  lemma ReadNothing(b: bytes, position: nat)
    ensures ReadNext(b, position, 0) == []
    ensures position >= |b| ==> forall n :: ReadNext(b, position, n) == []
  {
  }
}
