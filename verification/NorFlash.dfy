/**
 What NOR flash does to bytes, and what a block device on top of it promises:
 erasing sets bits, programming clears bits, and nothing else changes.
 */
module NorFlash {
  import opened Prelude

  const SECTOR: nat := 4096
  const ERASED: byte := 0xFF

  /** A plain byte array's write. */
  function Overwrite(dev: seq<byte>, at: nat, data: seq<byte>): (r: seq<byte>)
    requires at + |data| <= |dev|
    ensures |r| == |dev|
  {
    dev[..at] + data + dev[at + |data|..]
  }

  /** Programming ANDs the new bytes into the old ones. */
  function Program(dev: seq<byte>, at: nat, data: seq<byte>): (r: seq<byte>)
    requires at + |data| <= |dev|
    ensures |r| == |dev|
  {
    seq(|dev|, k requires 0 <= k < |dev| =>
      if at <= k < at + |data| then dev[k] & data[k - at] else dev[k])
  }

  function Erase(dev: seq<byte>, at: nat, n: nat): (r: seq<byte>)
    requires at + n <= |dev|
    ensures |r| == |dev|
  {
    Overwrite(dev, at, seq(n, _ => ERASED))
  }

  function Read(dev: seq<byte>, at: nat, n: nat): (r: seq<byte>)
    requires at + n <= |dev|
    ensures |r| == n
  {
    dev[at..at + n]
  }

  predicate Blank(dev: seq<byte>, at: nat, n: nat) {
    at + n <= |dev| && forall k | at <= k < at + n :: dev[k] == ERASED
  }

  lemma AndErased(b: byte)
    ensures ERASED & b == b
  {
  }

  /**
   A write without an erase stores its data if and only if every bit it wants
   set is still set; over erased bytes it always does.
   */
  lemma ProgramStoresIff(dev: seq<byte>, at: nat, data: seq<byte>)
    requires at + |data| <= |dev|
    ensures Program(dev, at, data) == Overwrite(dev, at, data)
      <==> forall k | 0 <= k < |data| :: dev[at + k] & data[k] == data[k]
    ensures Blank(dev, at, |data|) ==> Program(dev, at, data) == Overwrite(dev, at, data)
  {
    var p, o := Program(dev, at, data), Overwrite(dev, at, data);
    forall k | 0 <= k < |data| ensures p[at + k] == dev[at + k] & data[k] && o[at + k] == data[k] {
    }
    if forall k | 0 <= k < |data| :: dev[at + k] & data[k] == data[k] {
      forall k | 0 <= k < |dev| ensures p[k] == o[k] {
        if at <= k < at + |data| { assert dev[at + (k - at)] & data[k - at] == data[k - at]; }
      }
      assert p == o;
    }
    if Blank(dev, at, |data|) {
      forall k | 0 <= k < |data| ensures dev[at + k] & data[k] == data[k] {
        AndErased(data[k]);
      }
    }
  }

  /** Erase then program, as writeblocks() with three arguments does, is a plain write. */
  lemma EraseProgramIsOverwrite(dev: seq<byte>, at: nat, data: seq<byte>)
    requires at + |data| <= |dev|
    ensures Program(Erase(dev, at, |data|), at, data) == Overwrite(dev, at, data)
  {
    var e := Erase(dev, at, |data|);
    assert Blank(e, at, |data|);
    ProgramStoresIff(e, at, data);
    assert Overwrite(e, at, data) == Overwrite(dev, at, data);
  }

  /** Writes are read back, and reads elsewhere do not see them. */
  lemma ReadBack(dev: seq<byte>, at: nat, data: seq<byte>, from: nat, n: nat)
    requires at + |data| <= |dev| && from + n <= |dev|
    ensures Read(Overwrite(dev, at, data), at, |data|) == data
    ensures from + n <= at || at + |data| <= from ==> Read(Overwrite(dev, at, data), from, n) == Read(dev, from, n)
  {
  }

  // ---------------------------------------------------------------------
  // Several writes into an erased area
  // ---------------------------------------------------------------------

  datatype Write = Write(at: nat, data: seq<byte>)

  predicate Within(w: Write, size: nat) {
    w.at + |w.data| <= size
  }

  predicate Apart(v: Write, w: Write) {
    v.at + |v.data| <= w.at || w.at + |w.data| <= v.at
  }

  ghost predicate AllApart(ws: seq<Write>, size: nat) {
    && (forall i | 0 <= i < |ws| :: Within(ws[i], size))
    && (forall i, j | 0 <= i < j < |ws| :: Apart(ws[i], ws[j]))
  }

  function ProgramAll(dev: seq<byte>, ws: seq<Write>): (r: seq<byte>)
    requires forall i | 0 <= i < |ws| :: Within(ws[i], |dev|)
    ensures |r| == |dev|
    decreases |ws|
  {
    if ws == [] then dev
    else
      assert Within(ws[|ws| - 1], |dev|);
      Program(ProgramAll(dev, ws[..|ws| - 1]), ws[|ws| - 1].at, ws[|ws| - 1].data)
  }

  lemma ProgramAt(dev: seq<byte>, w: Write, k: nat)
    requires Within(w, |dev|) && k < |dev|
    ensures Program(dev, w.at, w.data)[k] ==
      if w.at <= k < w.at + |w.data| then dev[k] & w.data[k - w.at] else dev[k]
  {
  }

  lemma {:induction false} Untouched(dev: seq<byte>, ws: seq<Write>, k: nat)
    requires AllApart(ws, |dev|) && k < |dev|
    requires forall i | 0 <= i < |ws| :: !(ws[i].at <= k < ws[i].at + |ws[i].data|)
    ensures ProgramAll(dev, ws)[k] == dev[k]
    decreases |ws|
  {
    if ws != [] {
      var front := ws[..|ws| - 1];
      Untouched(dev, front, k);
      ProgramAt(ProgramAll(dev, front), ws[|ws| - 1], k);
    }
  }

  lemma {:induction false} WrittenByteAt(dev: seq<byte>, ws: seq<Write>, j: nat, k: nat)
    requires AllApart(ws, |dev|) && j < |ws| && ws[j].at <= k < ws[j].at + |ws[j].data|
    requires dev[k] == ERASED
    ensures ProgramAll(dev, ws)[k] == ws[j].data[k - ws[j].at]
    decreases |ws|
  {
    var front, last := ws[..|ws| - 1], ws[|ws| - 1];
    ProgramAt(ProgramAll(dev, front), last, k);
    if j == |ws| - 1 {
      Untouched(dev, front, k);
      AndErased(ws[j].data[k - ws[j].at]);
    } else {
      assert Apart(ws[j], last);
      WrittenByteAt(dev, front, j, k);
    }
  }

  /**
   After an erase, any number of disjoint offset writes into the erased area
   all read back exactly, in whatever order they were made.
   */
  lemma DisjointWritesReadBack(dev: seq<byte>, ws: seq<Write>, j: nat)
    requires AllApart(ws, |dev|) && j < |ws|
    requires Blank(dev, ws[j].at, |ws[j].data|)
    ensures Read(ProgramAll(dev, ws), ws[j].at, |ws[j].data|) == ws[j].data
  {
    forall k | ws[j].at <= k < ws[j].at + |ws[j].data| ensures ProgramAll(dev, ws)[k] == ws[j].data[k - ws[j].at] {
      WrittenByteAt(dev, ws, j, k);
    }
  }

  lemma EraseNothing(dev: seq<byte>, at: nat)
    requires at <= |dev|
    ensures Erase(dev, at, 0) == dev
  {
  }

  lemma EraseExtends(dev: seq<byte>, at: nat, n: nat, more: nat)
    requires at + n + more <= |dev|
    ensures Erase(Erase(dev, at, n), at + n, more) == Erase(dev, at, n + more)
  {
  }

  // ---------------------------------------------------------------------
  // The device as a byte array
  // ---------------------------------------------------------------------

  datatype Op =
    | Store(at: nat, data: seq<byte>)        // writeblocks() with three arguments
    | StoreBytes(at: nat, data: seq<byte>)   // writeblocks() with an offset
    | EraseArea(at: nat, n: nat)

  predicate OpWithin(op: Op, size: nat) {
    match op
    case Store(at, data) => at + |data| <= size
    case StoreBytes(at, data) => at + |data| <= size
    case EraseArea(at, n) => at + n <= size
  }

  /** What the operations do to the flash. */
  function FlashRun(dev: seq<byte>, ops: seq<Op>): (r: seq<byte>)
    requires forall i | 0 <= i < |ops| :: OpWithin(ops[i], |dev|)
    ensures |r| == |dev|
    decreases |ops|
  {
    if ops == [] then dev
    else
      var before, op := FlashRun(dev, ops[..|ops| - 1]), ops[|ops| - 1];
      assert OpWithin(op, |before|);
      match op
      case Store(at, data) => Program(Erase(before, at, |data|), at, data)
      case StoreBytes(at, data) => Program(before, at, data)
      case EraseArea(at, n) => Erase(before, at, n)
  }

  /** What they would do to a plain array, an erase being a fill. */
  function ArrayRun(dev: seq<byte>, ops: seq<Op>): (r: seq<byte>)
    requires forall i | 0 <= i < |ops| :: OpWithin(ops[i], |dev|)
    ensures |r| == |dev|
    decreases |ops|
  {
    if ops == [] then dev
    else
      var before, op := ArrayRun(dev, ops[..|ops| - 1]), ops[|ops| - 1];
      assert OpWithin(op, |before|);
      match op
      case Store(at, data) => Overwrite(before, at, data)
      case StoreBytes(at, data) => Overwrite(before, at, data)
      case EraseArea(at, n) => Overwrite(before, at, seq(n, _ => ERASED))
  }

  /** Every offset write goes to bytes that are erased at that moment. */
  predicate OntoBlank(dev: seq<byte>, ops: seq<Op>)
    requires forall i | 0 <= i < |ops| :: OpWithin(ops[i], |dev|)
    decreases |ops|
  {
    ops == [] ||
    var front, op := ops[..|ops| - 1], ops[|ops| - 1];
    OntoBlank(dev, front) && (op.StoreBytes? ==> Blank(FlashRun(dev, front), op.at, |op.data|))
  }

  /**
   Main result: for any sequence of block writes, erases, and offset writes
   onto erased bytes, the device is a plain byte array.
   */
  lemma {:induction false} RefinesByteArray(dev: seq<byte>, ops: seq<Op>)
    requires forall i | 0 <= i < |ops| :: OpWithin(ops[i], |dev|)
    requires OntoBlank(dev, ops)
    ensures FlashRun(dev, ops) == ArrayRun(dev, ops)
    decreases |ops|
  {
    if ops != [] {
      var front, op := ops[..|ops| - 1], ops[|ops| - 1];
      RefinesByteArray(dev, front);
      var before := FlashRun(dev, front);
      assert OpWithin(op, |before|);
      match op
      case Store(at, data) => EraseProgramIsOverwrite(before, at, data);
      case StoreBytes(at, data) => ProgramStoresIff(before, at, data);
      case EraseArea(at, n) =>
    }
  }
}
