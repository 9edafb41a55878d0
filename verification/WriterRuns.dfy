/** Runs of the bit writer with any number of cursors alive at once. */
module WriterRuns {
  import opened BitUtil
  import opened BitStream
  import opened BitWriter
  import opened StreamRuns

  /** A live cursor: its reserved bits from `start` to `end`, where it writes next, and the
      bits counted when it was handed out. */
  datatype Mark = Mark(start: nat, at: nat, end: nat, counted: int)

  /** What has been written, how much of it is counted, and the live cursors, the newest last. */
  datatype Machine = Machine(bits: Bits, counted: int, marks: seq<Mark>)

  datatype Op =
    | Append(field: Field)
    | Bulk(data: seq<Byte>)
    | Reserve(size: nat)
    | Patch(cursor: nat, field: Field)  // at any time, through any cursor
    | RollBack(cursor: nat)             // takes the newer cursors along
    | Release                           // the newest cursor goes out of scope

  /** Reserved stretches lie one behind the other. */
  predicate Nested(m: Machine)
  {
    && (forall i :: 0 <= i < |m.marks| ==> m.marks[i].start <= m.marks[i].at <= m.marks[i].end <= |m.bits|)
    && (forall i, j :: 0 <= i < j < |m.marks| ==> m.marks[i].end <= m.marks[j].start)
  }

  /** Within the reserve, and rolled back only before anything is written through the cursor. */
  predicate Legal(m: Machine, op: Op)
  {
    match op
    case Append(_) => true
    case Bulk(_) => true
    case Reserve(_) => true
    case Patch(i, f) => i < |m.marks| && f.width <= 63 && m.marks[i].at + f.width <= m.marks[i].end
    case RollBack(i) => i < |m.marks| && m.marks[i].at == m.marks[i].start
    case Release => m.marks != []
  }

  /** 64 bytes and more are copied on a byte boundary, and then not counted. */
  predicate Copied(m: Machine, data: seq<Byte>)
  {
    |m.bits| % 8 == 0 && |data| >= 64
  }

  function Step(m: Machine, op: Op): (m': Machine)
    requires Nested(m) && Legal(m, op)
    ensures Nested(m')
  {
    match op
    case Append(f) => m.(bits := m.bits + ToBits(f.val, f.width), counted := m.counted + f.width)
    case Bulk(data) =>
      m.(bits := m.bits + BytesToBits(data), counted := m.counted + if Copied(m, data) then 0 else 8 * |data|)
    case Reserve(n) =>
      var mark := Mark(|m.bits|, |m.bits|, |m.bits| + n, m.counted);
      Machine(m.bits + Zeros(n), m.counted + n, m.marks + [mark])
    case Patch(i, f) =>
      var mark := m.marks[i];
      m.(bits := Overwrite(m.bits, mark.at, ToBits(f.val, f.width)),
         marks := m.marks[i := mark.(at := mark.at + f.width)])
    case RollBack(i) => Machine(m.bits[..m.marks[i].start], m.marks[i].counted, m.marks[..i])
    case Release => m.(marks := m.marks[..|m.marks| - 1])
  }

  predicate AllLegal(m: Machine, ops: seq<Op>)
    requires Nested(m)
    decreases |ops|
  {
    ops != [] ==> Legal(m, ops[0]) && AllLegal(Step(m, ops[0]), ops[1..])
  }

  function RunAll(m: Machine, ops: seq<Op>): (m': Machine)
    requires Nested(m) && AllLegal(m, ops)
    ensures Nested(m')
    decreases |ops|
  {
    if ops == [] then m else RunAll(Step(m, ops[0]), ops[1..])
  }

  lemma {:induction false} RunOn(m: Machine, ops: seq<Op>, more: seq<Op>)
    requires Nested(m) && AllLegal(m, ops) && AllLegal(RunAll(m, ops), more)
    ensures AllLegal(m, ops + more) && RunAll(m, ops + more) == RunAll(RunAll(m, ops), more)
    decreases |ops|
  {
    hide Step, Legal, Nested;
    if ops == [] {
      assert ops + more == more;
    } else {
      assert (ops + more)[1..] == ops[1..] + more;
      RunOn(Step(m, ops[0]), ops[1..], more);
    }
  }

  // ----- work behind a cursor -----

  /** The operation touches no cursor before the `k`-th. */
  predicate Above(m: Machine, k: nat, op: Op)
  {
    match op
    case Patch(i, _) => i >= k
    case RollBack(i) => i >= k
    case Release => |m.marks| > k
    case _ => true
  }

  predicate AllAbove(m: Machine, k: nat, ops: seq<Op>)
    requires Nested(m) && AllLegal(m, ops)
    decreases |ops|
  {
    ops != [] ==> Above(m, k, ops[0]) && AllAbove(Step(m, ops[0]), k, ops[1..])
  }

  /** The first `k` cursors are as they were, and so are the first `b` bits, which no other
      cursor reaches. */
  predicate Keeps(m: Machine, m': Machine, k: nat, b: nat)
  {
    && k <= |m.marks| && k <= |m'.marks| && m'.marks[..k] == m.marks[..k]
    && b <= |m.bits| && b <= |m'.bits| && m'.bits[..b] == m.bits[..b]
    && (forall j :: k <= j < |m'.marks| ==> m'.marks[j].start >= b)
  }

  lemma OverwriteTail(bits: Bits, at: nat, patch: Bits, b: nat)
    requires b <= at && at + |patch| <= |bits|
    ensures Overwrite(bits, at, patch)[..b] == bits[..b]
  {
    forall i: nat | i < b ensures Overwrite(bits, at, patch)[i] == bits[i] { OverwriteAt(bits, at, patch, i); }
  }

  lemma StepKeeps(m: Machine, k: nat, b: nat, op: Op)
    requires Nested(m) && Legal(m, op) && Above(m, k, op) && Keeps(m, m, k, b)
    ensures Keeps(m, Step(m, op), k, b)
  {
    hide Overwrite;
    if op.Patch? {
      var mark := m.marks[op.cursor];
      OverwriteTail(m.bits, mark.at, ToBits(op.field.val, op.field.width), b);
    }
  }

  lemma {:induction false} AboveKeeps(m: Machine, k: nat, b: nat, ops: seq<Op>)
    requires Nested(m) && AllLegal(m, ops) && AllAbove(m, k, ops) && Keeps(m, m, k, b)
    ensures Keeps(m, RunAll(m, ops), k, b)
    decreases |ops|
  {
    hide Step, Legal, Nested, Above;
    if ops != [] {
      StepKeeps(m, k, b, ops[0]);
      AboveKeeps(Step(m, ops[0]), k, b, ops[1..]);
    }
  }

  /** A speculative write is undone: whatever is appended, reserved, patched and rolled back
      behind a new cursor, rolling back to it restores stream and cursors. */
  lemma Undone(m: Machine, n: nat, ops: seq<Op>)
    requires Nested(m) && AllLegal(Step(m, Reserve(n)), ops)
    requires AllAbove(Step(m, Reserve(n)), |m.marks| + 1, ops)
    ensures
      var m' := RunAll(Step(m, Reserve(n)), ops);
      Legal(m', RollBack(|m.marks|)) && Step(m', RollBack(|m.marks|)) == m
  {
    var k, m1 := |m.marks|, Step(m, Reserve(n));
    AboveKeeps(m1, k + 1, |m.bits|, ops);
    var m' := RunAll(m1, ops);
    assert m'.marks[..k + 1][k] == m1.marks[k];
    assert m'.marks[..k] == m'.marks[..k + 1][..k] == m.marks;
  }

  /** A large copy behind a cursor makes the count lag, and rolling back repairs it. */
  lemma CountRepaired(m: Machine, n: nat, data: seq<Byte>)
    requires Nested(m) && m.counted == |m.bits| && (|m.bits| + n) % 8 == 0 && |data| >= 64
    ensures
      var m1 := Step(Step(m, Reserve(n)), Bulk(data));
      && m1.counted == |m1.bits| - 8 * |data|
      && Legal(m1, RollBack(|m.marks|)) && Step(m1, RollBack(|m.marks|)) == m
  {
    hide BytesToBits;
    assert Step(Step(m, Reserve(n)), Bulk(data)).bits[..|m.bits|] == m.bits;
  }

  // ----- the time of a patch -----

  lemma OverwriteApart(bits: Bits, at: nat, a: Bits, at': nat, b: Bits)
    requires at + |a| <= at' && at' + |b| <= |bits|
    ensures Overwrite(Overwrite(bits, at, a), at', b) == Overwrite(Overwrite(bits, at', b), at, a)
  {
    hide Overwrite;
    var x, y := Overwrite(Overwrite(bits, at, a), at', b), Overwrite(Overwrite(bits, at', b), at, a);
    forall i: nat | i < |bits| ensures x[i] == y[i] {
      OverwriteAt(bits, at, a, i);
      OverwriteAt(bits, at', b, i);
      OverwriteAt(Overwrite(bits, at, a), at', b, i);
      OverwriteAt(Overwrite(bits, at', b), at, a, i);
    }
  }

  lemma OverwriteShort(bits: Bits, at: nat, patch: Bits, n: nat)
    requires at + |patch| <= n <= |bits|
    ensures Overwrite(bits, at, patch)[..n] == Overwrite(bits[..n], at, patch)
  {
    assert bits == bits[..n] + bits[n..];
    OverwriteBefore(bits[..n], bits[n..], at, patch);
  }

  lemma PatchesCommute(m: Machine, i: nat, f: Field, j: nat, g: Field)
    requires Nested(m) && i < j && Legal(m, Patch(i, f)) && Legal(m, Patch(j, g))
    ensures Legal(Step(m, Patch(j, g)), Patch(i, f)) && Legal(Step(m, Patch(i, f)), Patch(j, g))
    ensures Step(Step(m, Patch(j, g)), Patch(i, f)) == Step(Step(m, Patch(i, f)), Patch(j, g))
  {
    hide Overwrite, ToBits;
    OverwriteApart(m.bits, m.marks[i].at, ToBits(f.val, f.width), m.marks[j].at, ToBits(g.val, g.width));
  }

  lemma PatchRollBack(m: Machine, i: nat, f: Field, j: nat)
    requires Nested(m) && i < j && Legal(m, Patch(i, f)) && Legal(m, RollBack(j))
    ensures Legal(Step(m, RollBack(j)), Patch(i, f)) && Legal(Step(m, Patch(i, f)), RollBack(j))
    ensures Step(Step(m, RollBack(j)), Patch(i, f)) == Step(Step(m, Patch(i, f)), RollBack(j))
  {
    hide Overwrite, ToBits;
    OverwriteShort(m.bits, m.marks[i].at, ToBits(f.val, f.width), m.marks[j].start);
  }

  /** One operation behind a cursor and a patch through it can change places. */
  lemma PatchCommutes(m: Machine, i: nat, f: Field, op: Op)
    requires Nested(m) && Legal(m, op) && Above(m, i + 1, op) && Legal(m, Patch(i, f))
    ensures Legal(Step(m, op), Patch(i, f)) && Legal(Step(m, Patch(i, f)), op)
    ensures Step(Step(m, op), Patch(i, f)) == Step(Step(m, Patch(i, f)), op)
  {
    hide Overwrite, ToBits, BytesToBits;
    match op
    case Append(g) => OverwriteBefore(m.bits, ToBits(g.val, g.width), m.marks[i].at, ToBits(f.val, f.width));
    case Bulk(data) => OverwriteBefore(m.bits, BytesToBits(data), m.marks[i].at, ToBits(f.val, f.width));
    case Reserve(n) => OverwriteBefore(m.bits, Zeros(n), m.marks[i].at, ToBits(f.val, f.width));
    case Patch(j, g) => PatchesCommute(m, i, f, j, g);
    case RollBack(j) => PatchRollBack(m, i, f, j);
    case Release =>
  }

  lemma PatchKeepsAbove(m: Machine, i: nat, f: Field, k: nat, op: Op)
    requires Nested(m) && Legal(m, Patch(i, f)) && Above(m, k, op)
    ensures Above(Step(m, Patch(i, f)), k, op)
  {
  }

  /** A patch may come before or after whatever happens behind its cursor. */
  lemma {:induction false} PatchAnytime(m: Machine, i: nat, f: Field, ops: seq<Op>)
    requires Nested(m) && AllLegal(m, ops) && AllAbove(m, i + 1, ops) && Legal(m, Patch(i, f))
    ensures Legal(RunAll(m, ops), Patch(i, f)) && AllLegal(Step(m, Patch(i, f)), ops)
    ensures AllAbove(Step(m, Patch(i, f)), i + 1, ops)
    ensures Step(RunAll(m, ops), Patch(i, f)) == RunAll(Step(m, Patch(i, f)), ops)
    decreases |ops|
  {
    hide Step, Legal, Nested, Above;
    if ops != [] {
      PatchCommutes(m, i, f, ops[0]);
      PatchKeepsAbove(m, i, f, i + 1, ops[0]);
      PatchAnytime(Step(m, ops[0]), i, f, ops[1..]);
    }
  }

  // ----- the writer follows -----

  ghost predicate CursorAt(c: BitWriterCursor, mark: Mark)
    reads c
  {
    && c.Valid() && c.Pos() == mark.at && c.size >= mark.end - mark.at
    && (c.wrote <==> mark.at > mark.start) && c.totalBits == mark.counted
  }

  ghost predicate Follows(writer: BitWriterVector, cursors: seq<BitWriterCursor>, m: Machine)
    reads writer, cursors
  {
    && writer.Valid() && writer.stream == m.bits && writer.totalBits == m.counted && |cursors| == |m.marks|
    && (forall i, j :: 0 <= i < j < |cursors| ==> cursors[i] != cursors[j])
    && (forall i :: 0 <= i < |cursors| ==> CursorAt(cursors[i], m.marks[i]))
  }

  method PatchThrough(writer: BitWriterVector, cursors: seq<BitWriterCursor>, ghost m: Machine, i: nat, f: Field)
    requires Nested(m) && Legal(m, Patch(i, f)) && Follows(writer, cursors, m)
    modifies writer, cursors
    ensures Follows(writer, cursors, Step(m, Patch(i, f)))
  {
    hide Overwrite, BitWriterVector.Valid, ToBits;
    assert CursorAt(cursors[i], m.marks[i]);
    var ok := writer.WriteBitsAt(cursors[i], f.val, f.width);
  }

  method RollBackTo(writer: BitWriterVector, cursors: seq<BitWriterCursor>, ghost m: Machine, i: nat)
    requires Nested(m) && Legal(m, RollBack(i)) && Follows(writer, cursors, m)
    modifies writer
    ensures Follows(writer, cursors[..i], Step(m, RollBack(i)))
  {
    hide BitWriterVector.Valid;
    assert CursorAt(cursors[i], m.marks[i]);
    var ok := writer.RollBack(cursors[i]);
  }

  method RunOp(writer: BitWriterVector, cursors: seq<BitWriterCursor>, ghost m: Machine, op: Op)
    returns (live: seq<BitWriterCursor>)
    requires Nested(m) && Legal(m, op) && Follows(writer, cursors, m)
    modifies writer, cursors
    ensures Follows(writer, live, Step(m, op))
    ensures forall c <- live :: c in cursors || fresh(c)
  {
    hide Overwrite, BitWriterVector.Valid, ToBits;
    live := cursors;
    match op {
      case Append(f) => writer.WriteBits(f.val, f.width);
      case Bulk(data) =>
        writer.Position();
        writer.WriteBuffer(data);
      case Reserve(n) =>
        var cursor := writer.Reserve(n);
        live := cursors + [cursor];
      case Patch(i, f) => PatchThrough(writer, cursors, m, i, f);
      case RollBack(i) =>
        RollBackTo(writer, cursors, m, i);
        live := cursors[..i];
      case Release =>
        live := cursors[..|cursors| - 1];
    }
  }

  /** Every run leaves the stream and the bit count the machine has; no cursor write is refused
      and no roll back throws. */
  method RunOps(writer: BitWriterVector, cursors: seq<BitWriterCursor>, ghost m: Machine, ops: seq<Op>)
    returns (live: seq<BitWriterCursor>)
    requires Nested(m) && AllLegal(m, ops) && Follows(writer, cursors, m)
    modifies writer, cursors
    ensures Follows(writer, live, RunAll(m, ops))
    decreases |ops|
  {
    hide Step, Legal, Nested, Follows;
    live := cursors;
    if ops != [] {
      var next := RunOp(writer, cursors, m, ops[0]);
      assert forall i :: 0 <= i < |next| ==> next[i] in next;
      live := RunOps(writer, next, Step(m, ops[0]), ops[1..]);
    }
  }

  // ----- nested sections -----

  /** `Section` reserves bits, writes its body behind them, and then either patches the
      reserved bits through the cursor or rolls everything back. */
  datatype WriterOp =
    | Write(field: Field)
    | Section(reserved: nat, body: seq<WriterOp>, patches: seq<Field>, keep: bool)

  function OpSize(op: WriterOp): nat
    decreases op
  {
    match op case Write(_) => 1 case Section(_, body, _, _) => 1 + OpsSize(body)
  }

  function OpsSize(ops: seq<WriterOp>): nat
    decreases ops
  {
    if ops == [] then 0 else 1 + OpSize(ops[0]) + OpsSize(ops[1..])
  }

  predicate PatchesFit(patches: seq<Field>, reserved: nat)
  {
    (forall p <- patches :: p.width <= 63) && |FieldBits(patches)| <= reserved
  }

  predicate LegalSection(op: WriterOp)
    decreases OpSize(op)
  {
    op.Section? ==> LegalSections(op.body) && PatchesFit(op.patches, op.reserved)
  }

  predicate LegalSections(ops: seq<WriterOp>)
    decreases OpsSize(ops)
  {
    ops != [] ==> LegalSection(ops[0]) && LegalSections(ops[1..])
  }

  /** What an operation leaves in the stream. */
  function OpBits(op: WriterOp): Bits
    requires LegalSection(op)
    decreases OpSize(op)
  {
    match op
    case Write(f) => ToBits(f.val, f.width)
    case Section(reserved, body, patches, keep) =>
      if keep then FieldBits(patches) + Zeros(reserved - |FieldBits(patches)|) + Meaning(body) else []
  }

  /** What nested sections leave in the stream: kept ones their patched header and their
      meaning, abandoned ones nothing. */
  function Meaning(ops: seq<WriterOp>): Bits
    requires LegalSections(ops)
    decreases OpsSize(ops)
  {
    if ops == [] then [] else OpBits(ops[0]) + Meaning(ops[1..])
  }

  function Patches(cursor: nat, patches: seq<Field>): seq<Op>
  {
    if patches == [] then [] else [Patch(cursor, patches[0])] + Patches(cursor, patches[1..])
  }

  /** The steps of an operation below `depth` live cursors. */
  function Steps(op: WriterOp, depth: nat): seq<Op>
    decreases OpSize(op)
  {
    match op
    case Write(f) => [Append(f)]
    case Section(reserved, body, patches, keep) =>
      [Reserve(reserved)]
        + (AllSteps(body, depth + 1) + if keep then Patches(depth, patches) + [Release] else [RollBack(depth)])
  }

  function AllSteps(ops: seq<WriterOp>, depth: nat): seq<Op>
    decreases OpsSize(ops)
  {
    if ops == [] then [] else Steps(ops[0], depth) + AllSteps(ops[1..], depth)
  }

  function Appended(m: Machine, bits: Bits): Machine
  {
    m.(bits := m.bits + bits, counted := m.counted + |bits|)
  }

  predicate RunsTo(m: Machine, ops: seq<Op>, m': Machine)
  {
    Nested(m) && AllLegal(m, ops) && RunAll(m, ops) == m'
  }

  lemma RunsThrough(m: Machine, ops: seq<Op>, m': Machine, more: seq<Op>, m'': Machine)
    requires RunsTo(m, ops, m') && RunsTo(m', more, m'')
    ensures RunsTo(m, ops + more, m'')
  {
    hide Step, Legal;
    RunOn(m, ops, more);
  }

  lemma OneStep(m: Machine, op: Op)
    requires Nested(m) && Legal(m, op)
    ensures RunsTo(m, [op], Step(m, op))
  {
    hide Step, Legal, Nested;
    assert [op][1..] == [];
    assert AllLegal(Step(m, op), []) && RunAll(Step(m, op), []) == Step(m, op);
  }

  /** Patches one after the other overwrite the start of the reserve. */
  lemma {:induction false} PatchesRun(m: Machine, i: nat, patches: seq<Field>)
    requires Nested(m) && i < |m.marks| && PatchesFit(patches, m.marks[i].end - m.marks[i].at)
    ensures
      var mark, n := m.marks[i], |FieldBits(patches)|;
      RunsTo(m, Patches(i, patches),
        m.(bits := Overwrite(m.bits, mark.at, FieldBits(patches)), marks := m.marks[i := mark.(at := mark.at + n)]))
    decreases |patches|
  {
    hide Overwrite, ToBits;
    if patches == [] {
      assert Overwrite(m.bits, m.marks[i].at, []) == m.bits by { NothingOver(m.bits, m.marks[i].at); }
    } else {
      var f, at := patches[0], m.marks[i].at;
      OneStep(m, Patch(i, f));
      PatchesRun(Step(m, Patch(i, f)), i, patches[1..]);
      OverwriteConcat(m.bits, at, ToBits(f.val, f.width), FieldBits(patches[1..]));
    }
  }

  lemma NothingOver(bits: Bits, at: nat)
    requires at <= |bits|
    ensures Overwrite(bits, at, []) == bits
  {
  }

  /** The end of a kept section: `m2` is the machine behind its body. */
  lemma KeptEnd(m: Machine, m2: Machine, reserved: nat, body: Bits, patches: seq<Field>)
    requires Nested(m) && PatchesFit(patches, reserved)
    requires m2 == Machine(m.bits + Zeros(reserved) + body, m.counted + reserved + |body|,
      m.marks + [Mark(|m.bits|, |m.bits|, |m.bits| + reserved, m.counted)])
    ensures RunsTo(m2, Patches(|m.marks|, patches) + [Release],
      Appended(m, FieldBits(patches) + Zeros(reserved - |FieldBits(patches)|) + body))
  {
    hide Overwrite, ToBits, RunsTo, FieldBits, Patches;
    var d, at, patch := |m.marks|, |m.bits|, FieldBits(patches);
    var m3 := m2.(bits := Overwrite(m2.bits, at, patch), marks := m2.marks[d := m2.marks[d].(at := at + |patch|)]);
    PatchesRun(m2, d, patches);
    OneStep(m3, Release);
    OverwriteHeader(m.bits, reserved, patch, body);
    assert m3.marks[..d] == m.marks;
    RunsThrough(m2, Patches(d, patches), m3, [Release], Step(m3, Release));
  }

  lemma DroppedEnd(m: Machine, m2: Machine, reserved: nat, body: Bits)
    requires Nested(m)
    requires m2 == Machine(m.bits + Zeros(reserved) + body, m.counted + reserved + |body|,
      m.marks + [Mark(|m.bits|, |m.bits|, |m.bits| + reserved, m.counted)])
    ensures RunsTo(m2, [RollBack(|m.marks|)], Appended(m, []))
  {
    hide RunsTo;
    OneStep(m2, RollBack(|m.marks|));
    assert m2.bits[..|m.bits|] == m.bits == m.bits + [] && m2.marks[..|m.marks|] == m.marks;
  }

  lemma {:induction false} SectionRuns(m: Machine, reserved: nat, body: seq<WriterOp>, patches: seq<Field>, keep: bool)
    requires Nested(m) && LegalSections(body) && PatchesFit(patches, reserved)
    ensures
      var op := Section(reserved, body, patches, keep);
      RunsTo(m, Steps(op, |m.marks|), Appended(m, OpBits(op)))
    decreases OpsSize(body), 1
  {
    hide Nested, Zeros, RunsTo, Meaning, FieldBits, AllSteps, Patches, PatchesFit;
    var d, m1 := |m.marks|, Step(m, Reserve(reserved));
    var m2 := Appended(m1, Meaning(body));
    var m' := Appended(m, OpBits(Section(reserved, body, patches, keep)));
    var end := if keep then Patches(d, patches) + [Release] else [RollBack(d)];
    OneStep(m, Reserve(reserved));
    SectionsRun(m1, body);
    if keep {
      KeptEnd(m, m2, reserved, Meaning(body), patches);
    } else {
      DroppedEnd(m, m2, reserved, Meaning(body));
    }
    RunsThrough(m1, AllSteps(body, d + 1), m2, end, m');
    RunsThrough(m, [Reserve(reserved)], m1, AllSteps(body, d + 1) + end, m');
  }

  /** Nested sections are such runs, and append exactly their meaning. */
  lemma {:induction false} SectionsRun(m: Machine, ops: seq<WriterOp>)
    requires Nested(m) && LegalSections(ops)
    ensures RunsTo(m, AllSteps(ops, |m.marks|), Appended(m, Meaning(ops)))
    decreases OpsSize(ops), 0
  {
    hide Step, Legal, ToBits, Zeros, Steps, OpBits;
    if ops == [] {
      assert m.bits + [] == m.bits;
    } else {
      var op, more := ops[0], ops[1..];
      var m' := Appended(m, OpBits(op));
      OneOpRuns(m, op);
      SectionsRun(m', more);
      ConcatAssoc(m.bits, OpBits(op), Meaning(more));
      RunsThrough(m, Steps(op, |m.marks|), m', AllSteps(more, |m.marks|),
        Appended(m, Meaning(ops)));
    }
  }

  lemma {:induction false} OneOpRuns(m: Machine, op: WriterOp)
    requires Nested(m) && LegalSection(op)
    ensures RunsTo(m, Steps(op, |m.marks|), Appended(m, OpBits(op)))
    ensures Nested(Appended(m, OpBits(op)))
    decreases OpSize(op), 2
  {
    hide RunsTo;
    match op
    case Write(f) => OneStep(m, Append(f));
    case Section(reserved, body, patches, keep) => SectionRuns(m, reserved, body, patches, keep);
  }

  /** The writer appends the meaning of any nested sections. */
  method Run(writer: BitWriterVector, ops: seq<WriterOp>)
    requires writer.Valid() && LegalSections(ops)
    modifies writer
    ensures writer.Valid() && writer.stream == old(writer.stream) + Meaning(ops)
    ensures writer.Drift() == old(writer.Drift())
  {
    ghost var m := Machine(writer.stream, writer.totalBits, []);
    SectionsRun(m, ops);
    var live := RunOps(writer, [], m, AllSteps(ops, 0));
  }
}
