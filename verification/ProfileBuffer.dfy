/** The load-profile file of exampleserver.c: a four-byte header (next index, entries in use) and a
    ring of fixed-size rows, against the plain list of rows captured since the last clear. */
module ProfileBuffer {
  import opened Bytes

  type Row = seq<Byte>

  /** What one capture column yields: its serialized bytes, or the error of reading it. */
  datatype Column = Value(bytes: seq<Byte>) | Fails(code: int)

  /** The file and the counters of the COSEM object. */
  datatype Profile = Profile(profileEntries: nat, entriesInUse: nat, file: seq<Byte>)

  // ---------- files ----------

  /** `data` written over the bytes from `pos` on. */
  function Overwrite(file: seq<Byte>, pos: nat, data: seq<Byte>): (r: seq<Byte>)
    requires pos + |data| <= |file|
    ensures |r| == |file|
  {
    file[..pos] + data + file[pos + |data|..]
  }

  lemma OverwriteTwice(file: seq<Byte>, pos: nat, a: seq<Byte>, b: seq<Byte>)
    requires pos + |a| + |b| <= |file|
    ensures Overwrite(Overwrite(file, pos, a), pos + |a|, b) == Overwrite(file, pos, a + b)
  {
  }

  /** The rows a file of `fileSize` bytes is taken to hold; sizes are 16-bit in the source. */
  function MaxRowCount(fileSize: nat, rowSize: nat): nat {
    if rowSize == 0 then 0 else (fileSize % 65536 - 4) % 65536 / rowSize
  }

  // ---------- the operations on values ----------

  /** The number that bytes stand for, most significant first. */
  function Number(bytes: seq<Byte>): nat {
    if bytes == [] then 0 else 256 * Number(bytes[..|bytes| - 1]) + bytes[|bytes| - 1]
  }

  lemma NumberOfTwo(bytes: seq<Byte>)
    requires |bytes| == 2
    ensures Number(bytes) == Word(bytes[0], bytes[1])
  {
    assert bytes[..1][..0] == [];
    assert Number(bytes[..1]) == bytes[0];
  }

  lemma NumberOfWord(n: nat)
    requires n < 65536
    ensures Number([Hi(n), Lo(n)]) == n
  {
    NumberOfTwo([Hi(n), Lo(n)]);
    WordOfHalves(n);
  }

  function StoredIndex(file: seq<Byte>): nat { if |file| >= 2 then Number(file[..2]) else 0 }

  function Header(index: nat, used: nat): (h: seq<Byte>)
    ensures |h| == 4
  {
    [Hi(index), Lo(index), Hi(used), Lo(used)]
  }

  /** The slot of the row numbered `n`: its remainder, counted down. */
  function Slot(n: nat, entries: nat): (k: nat)
    requires entries > 0
    ensures k < entries
  {
    if n < entries then n else Slot(n - entries, entries)
  }

  lemma {:induction false} SlotIsRemainder(n: nat, entries: nat)
    requires entries > 0
    ensures Slot(n, entries) == n % entries
  {
    if n < entries {
      RemainderOf(n, entries, 0, n);
    } else {
      SlotIsRemainder(n - entries, entries);
      var q, r := (n - entries) / entries, (n - entries) % entries;
      assert entries * (q + 1) == entries * q + entries;
      RemainderOf(n, entries, q + 1, r);
    }
  }

  lemma Multiple(m: int, d: int)
    requires m > 0
    ensures d >= 1 ==> m * d >= m
    ensures d <= -1 ==> m * d <= -m
  {
    if d >= 1 { assert m * d == m * (d - 1) + m; }
    if d <= -1 { assert m * d == m * (d + 1) - m; }
  }

  lemma RemainderOf(n: nat, m: nat, q: nat, r: nat)
    requires m > 0 && r < m && n == m * q + r
    ensures n % m == r
  {
    var d := n / m - q;
    assert n == m * (n / m) + n % m;
    assert m * (n / m) - m * q == m * d;
    Multiple(m, d);
  }

  /** Where slot `k` starts in the file. */
  function RowStart(k: nat, rowSize: nat): (at: nat)
    ensures at >= 4
  {
    if k == 0 then 4 else RowStart(k - 1, rowSize) + rowSize
  }

  lemma {:induction false} RowStartIsProduct(k: nat, rowSize: nat)
    ensures RowStart(k, rowSize) == 4 + k * rowSize
  {
    if k != 0 {
      RowStartIsProduct(k - 1, rowSize);
      assert k * rowSize == (k - 1) * rowSize + rowSize;
    }
  }

  lemma {:induction false} RowStartGrows(i: nat, k: nat, rowSize: nat)
    requires i < k
    ensures RowStart(i, rowSize) + rowSize <= RowStart(k, rowSize)
  {
    if i < k - 1 {
      RowStartGrows(i, k - 1, rowSize);
    }
  }

  /** Room for every row, and a capacity that fits the 16-bit index. */
  predicate Shape(p: Profile, rowSize: nat) {
    0 < p.profileEntries < 65536 && RowStart(p.profileEntries, rowSize) <= |p.file| && 4 <= |p.file|
  }

  /** The number of entries that a capture writes to the header. */
  function Counted(used: nat, entries: nat): nat { if used != entries then used + 1 else used }

  /** The file after the header update and the bytes `written` of a capture. */
  function CapturedFile(p: Profile, written: seq<Byte>, rowSize: nat): seq<Byte>
    requires Shape(p, rowSize) && |written| <= rowSize
  {
    var index := StoredIndex(p.file);
    RowStartGrows(Slot(index, p.profileEntries), p.profileEntries, rowSize);
    Overwrite(Overwrite(p.file, 0, Header(Slot(1 + index, p.profileEntries), Counted(p.entriesInUse, p.profileEntries))),
              RowStart(Slot(index, p.profileEntries), rowSize), written)
  }

  function AfterCapture(p: Profile, row: Row): Profile
    requires Shape(p, |row|)
  {
    p.(entriesInUse := Counted(p.entriesInUse, p.profileEntries), file := CapturedFile(p, row, |row|))
  }

  /** A column failed behind the bytes `written`: the counter steps back, the header does not. */
  function AfterFailure(p: Profile, written: Row, rowSize: nat): Profile
    requires Shape(p, rowSize) && |written| <= rowSize
  {
    p.(entriesInUse := if p.entriesInUse != p.profileEntries then p.entriesInUse else p.entriesInUse - 1,
       file := CapturedFile(p, written, rowSize))
  }

  function AfterClear(p: Profile): Profile
    requires |p.file| >= 4
  {
    p.(entriesInUse := 0, file := Overwrite(p.file, 0, [0, 0, 0, 0]))
  }

  /** The bytes written before the first column that fails, and its error (0 if none does). */
  function RowOf(columns: seq<Column>): (r: (Row, int)) {
    if columns == [] then ([], 0)
    else match columns[0]
      case Fails(code) => ([], code)
      case Value(bytes) => var (rest, code) := RowOf(columns[1..]); (bytes + rest, code)
  }

  function Continued(written: Row, rest: (Row, int)): (Row, int) { (written + rest.0, rest.1) }

  lemma RowOfStep(written: Row, columns: seq<Column>, pos: nat)
    requires pos < |columns|
    ensures match columns[pos]
            case Fails(code) => Continued(written, RowOf(columns[pos..])) == (written, code)
            case Value(bytes) => Continued(written, RowOf(columns[pos..])) == Continued(written + bytes, RowOf(columns[pos + 1..]))
  {
    assert columns[pos..][0] == columns[pos] && columns[pos..][1..] == columns[pos + 1..];
    if columns[pos].Fails? {
      assert RowOf(columns[pos..]) == ([], columns[pos].code);
      assert written + [] == written;
    } else {
      var rest := RowOf(columns[pos + 1..]).0;
      assert written + (columns[pos].bytes + rest) == written + columns[pos].bytes + rest;
    }
  }

  predicate RealErrors(columns: seq<Column>) {
    forall c :: c in columns && c.Fails? ==> c.code != 0
  }

  class ProfileGeneric {
    var profileEntries: nat
    var entriesInUse: nat
    var file: seq<Byte>

    ghost function State(): Profile
      reads this
    {
      Profile(profileEntries, entriesInUse, file)
    }

    constructor (entries: nat, size: nat)
      ensures State() == Profile(entries, 0, Zeros(size))
    {
      profileEntries, entriesInUse, file := entries, 0, Zeros(size);
    }

    /** captureProfileGeneric for rows of `dataSize` bytes; a failing column stops the row. */
    method Capture(columns: seq<Column>, dataSize: nat) returns (ret: int)
      requires Shape(State(), dataSize) && RealErrors(columns) && |RowOf(columns).0| <= dataSize
      modifies this
      ensures profileEntries == old(profileEntries) && ret == RowOf(columns).1
      ensures file == CapturedFile(old(State()), RowOf(columns).0, dataSize)
      ensures ret == 0 && |RowOf(columns).0| == dataSize ==> State() == AfterCapture(old(State()), RowOf(columns).0)
      ensures ret != 0 ==> State() == AfterFailure(old(State()), RowOf(columns).0, dataSize)
    {
      hide RowOf, RowStart, Overwrite, Number, Slot;
      NumberOfTwo(file[..2]);
      var index := Word(file[0], file[1]);
      if entriesInUse != profileEntries {
        entriesInUse := entriesInUse + 1;
      }
      SlotIsRemainder(1 + index, profileEntries);
      file := Overwrite(file, 0, Header((1 + index) % profileEntries, entriesInUse));
      RowStartGrows(Slot(index, profileEntries), profileEntries, dataSize);
      var position := RowPosition(index, dataSize);
      ret := WriteColumns(columns, position);
      if ret != 0 {
        entriesInUse := entriesInUse - 1;
      }
    }

    /** Where captureProfileGeneric seeks to: no seek is made for index 0. */
    method RowPosition(index: nat, dataSize: nat) returns (position: nat)
      requires profileEntries > 0
      ensures position == RowStart(Slot(index, profileEntries), dataSize)
    {
      SlotIsRemainder(index, profileEntries);
      position := 4;
      if index != 0 {
        position := 4 + index % profileEntries * dataSize;
      }
      RowStartIsProduct(index % profileEntries, dataSize);
    }

    /** The column loop of captureProfileGeneric, from file position `start` on. */
    method WriteColumns(columns: seq<Column>, start: nat) returns (ret: int)
      requires RealErrors(columns) && start + |RowOf(columns).0| <= |file|
      modifies `file
      ensures ret == RowOf(columns).1
      ensures file == Overwrite(old(file), start, RowOf(columns).0)
    {
      var pos, position := 0, start;
      ret := 0;
      ghost var written: seq<Byte> := [];
      assert file == Overwrite(file, start, []);
      assert columns[0..] == columns && [] + RowOf(columns).0 == RowOf(columns).0;
      while pos < |columns|
        invariant 0 <= pos <= |columns| && ret == 0
        invariant RowOf(columns) == Continued(written, RowOf(columns[pos..]))
        invariant position == start + |written| && file == Overwrite(old(file), start, written)
      {
        RowOfStep(written, columns, pos);
        match columns[pos] {
          case Fails(code) =>
            assert columns[pos] in columns;
            return code;
          case Value(bytes) =>
            OverwriteTwice(old(file), start, written, bytes);
            file := Overwrite(file, position, bytes);
            position := position + |bytes|;
            written := written + bytes;
        }
        pos := pos + 1;
      }
      assert Continued(written, ([], 0)).0 == written;
    }

    /** The clear action of handleProfileGenericActions. */
    method Clear()
      requires |file| >= 4
      modifies this
      ensures State() == AfterClear(old(State()))
    {
      entriesInUse := 0;
      file := Overwrite(file, 0, [0, 0, 0, 0]);
    }
  }

  // ---------- the file holds the latest rows ----------

  /** Slot `k` of the file holds `row`. */
  predicate SlotHolds(file: seq<Byte>, k: nat, row: Row) {
    RowStart(k, |row|) + |row| <= |file| && file[RowStart(k, |row|)..RowStart(k, |row|) + |row|] == row
  }

  /** The index of the header and the slots agree with the last `profileEntries` rows of `history`. */
  ghost predicate RingHolds(p: Profile, history: seq<Row>, rowSize: nat)
    requires Shape(p, rowSize)
  {
    && StoredIndex(p.file) == Slot(|history|, p.profileEntries)
    && (forall i :: 0 <= i < |history| ==> |history[i]| == rowSize)
    && forall i :: 0 <= i < |history| && |history| - p.profileEntries <= i ==>
         SlotHolds(p.file, Slot(i, p.profileEntries), history[i])
  }

  /** The number of entries in the header. */
  function StoredCount(file: seq<Byte>): nat { if |file| >= 4 then Number(file[2..4]) else 0 }

  /** The header: index and count, most significant byte first. */
  lemma HeaderLayout(file: seq<Byte>)
    requires |file| >= 4
    ensures StoredIndex(file) == 256 * file[0] as nat + file[1] && StoredCount(file) == 256 * file[2] as nat + file[3]
  {
    NumberOfTwo(file[..2]);
    NumberOfTwo(file[2..4]);
  }

  /** The file and the counters hold exactly the last `profileEntries` rows of `history`. */
  ghost predicate Holds(p: Profile, history: seq<Row>, rowSize: nat)
    requires Shape(p, rowSize)
  {
    RingHolds(p, history, rowSize) && p.entriesInUse == Least(|history|, p.profileEntries) == StoredCount(p.file)
  }

  /** Among the last `n` consecutive numbers no two fall into one slot. */
  lemma {:induction false} SlotsOfWindow(i: nat, n: nat, entries: nat)
    requires 0 < entries && i < n && n - entries < i
    ensures Slot(i, entries) != Slot(n, entries)
  {
    if i >= entries { SlotsOfWindow(i - entries, n - entries, entries); }
  }

  /** Numbers that share a slot go on sharing slots. */
  lemma {:induction false} SlotAdd(n: nat, i: nat, entries: nat)
    requires entries > 0
    ensures Slot(Slot(n, entries) + i, entries) == Slot(n + i, entries)
  {
    if n >= entries { SlotAdd(n - entries, i, entries); }
  }

  lemma StoredHeader(file: seq<Byte>, index: nat, used: nat)
    requires |file| >= 4 && file[..4] == Header(index, used) && index < 65536 && used < 65536
    ensures StoredIndex(file) == index && StoredCount(file) == used
  {
    hide Number;
    assert file[..2] == file[..4][..2] && file[2..4] == file[..4][2..];
    assert file[..2] == [Hi(index), Lo(index)] && file[2..4] == [Hi(used), Lo(used)];
    NumberOfWord(index);
    NumberOfWord(used);
  }

  lemma OverwrittenApart(file: seq<Byte>, pos: nat, data: seq<Byte>, from: nat, to: nat, f: seq<Byte>)
    requires pos + |data| <= |file| && from <= to <= |file| && f == Overwrite(file, pos, data)
    requires to <= pos || pos + |data| <= from
    ensures f[from..to] == file[from..to]
  {
    forall i | from <= i < to
      ensures f[i] == file[i]
    {
      if i >= pos { assert f[i] == file[pos + |data|..][i - pos - |data|]; }
    }
  }

  /** A header and a row written at byte `at`, away from the bytes from `from` on. */
  lemma WrittenApart(file: seq<Byte>, header: seq<Byte>, at: nat, row: Row, from: nat, to: nat, f: seq<Byte>)
    requires |header| == 4 <= at && at + |row| <= |file| && 4 <= from <= to <= |file|
    requires to <= at || at + |row| <= from
    requires f == Overwrite(Overwrite(file, 0, header), at, row)
    ensures |f| == |file| && f[from..to] == file[from..to]
  {
    var g := Overwrite(file, 0, header);
    OverwrittenApart(file, 0, header, from, to, g);
    OverwrittenApart(g, at, row, from, to, f);
  }

  lemma WrittenHere(file: seq<Byte>, header: seq<Byte>, at: nat, row: Row, f: seq<Byte>)
    requires |header| == 4 <= at && at + |row| <= |file|
    requires f == Overwrite(Overwrite(file, 0, header), at, row)
    ensures |f| == |file| && f[..4] == header && f[at..at + |row|] == row
  {
  }

  /** A header and the row of slot `m` written: that slot holds the row, every other slot is untouched. */
  lemma RowWritten(file: seq<Byte>, header: seq<Byte>, m: nat, entries: nat, row: Row, f: seq<Byte>)
    requires |header| == 4 && m < entries && RowStart(entries, |row|) <= |file|
    requires RowStart(m, |row|) + |row| <= |file| && f == Overwrite(Overwrite(file, 0, header), RowStart(m, |row|), row)
    ensures |f| == |file| && f[..4] == header && SlotHolds(f, m, row)
  {
    RowStartGrows(m, entries, |row|);
    WrittenHere(file, header, RowStart(m, |row|), row, f);
  }

  lemma SameSlotBytes(file: seq<Byte>, f: seq<Byte>, k: nat, other: Row, from: nat, to: nat)
    requires SlotHolds(file, k, other) && from == RowStart(k, |other|) && to == from + |other| && |f| == |file|
    requires f[from..to] == file[from..to]
    ensures SlotHolds(f, k, other)
  {
    hide RowStart;
  }

  lemma SlotsApart(k: nat, m: nat, entries: nat, size: nat)
    requires k < entries && m < entries && k != m
    ensures RowStart(k, size) + size <= RowStart(m, size) || RowStart(m, size) + size <= RowStart(k, size)
    ensures RowStart(k, size) + size <= RowStart(entries, size) && RowStart(m, size) + size <= RowStart(entries, size)
  {
    RowStartGrows(m, entries, size);
    RowStartGrows(k, entries, size);
    if k < m { RowStartGrows(k, m, size); } else { RowStartGrows(m, k, size); }
  }

  lemma RowKept(file: seq<Byte>, header: seq<Byte>, m: nat, k: nat, entries: nat, row: Row, other: Row, f: seq<Byte>)
    requires |header| == 4 && m < entries && k < entries && k != m && |other| == |row|
    requires RowStart(entries, |row|) <= |file| && SlotHolds(file, k, other)
    requires RowStart(m, |row|) + |row| <= |file| && f == Overwrite(Overwrite(file, 0, header), RowStart(m, |row|), row)
    ensures SlotHolds(f, k, other)
  {
    SlotsApart(k, m, entries, |row|);
    var from := RowStart(k, |row|);
    var to := from + |row|;
    WrittenApart(file, header, RowStart(m, |row|), row, from, to, f);
    SameSlotBytes(file, f, k, other, from, to);
  }

  /** The slots of a longer list, given the slot written and those that were kept. */
  lemma LongerHolds(q: Profile, history: seq<Row>, row: Row)
    requires Shape(q, |row|) && forall i :: 0 <= i < |history| ==> |history[i]| == |row|
    requires StoredIndex(q.file) == Slot(|history| + 1, q.profileEntries)
    requires SlotHolds(q.file, Slot(|history|, q.profileEntries), row)
    requires forall i :: 0 <= i < |history| && |history| + 1 - q.profileEntries <= i ==>
               SlotHolds(q.file, Slot(i, q.profileEntries), history[i])
    ensures RingHolds(q, history + [row], |row|)
  {
    hide Slot, SlotHolds, StoredIndex, RowStart;
    var longer := history + [row];
    forall i | 0 <= i < |longer| && |longer| - q.profileEntries <= i
      ensures SlotHolds(q.file, Slot(i, q.profileEntries), longer[i])
    {
      if i == |history| { assert longer[i] == row; } else { assert longer[i] == history[i]; }
    }
  }

  /** The file after a whole row and any count. */
  function CapturedRow(p: Profile, row: Row, used: nat): seq<Byte>
    requires Shape(p, |row|)
  {
    RowStartGrows(Slot(StoredIndex(p.file), p.profileEntries), p.profileEntries, |row|);
    Overwrite(Overwrite(p.file, 0, Header(Slot(StoredIndex(p.file) + 1, p.profileEntries), used)),
              RowStart(Slot(StoredIndex(p.file), p.profileEntries), |row|), row)
  }

  lemma CapturedRowIs(p: Profile, n: nat, row: Row, used: nat)
    requires Shape(p, |row|) && StoredIndex(p.file) == Slot(n, p.profileEntries)
    ensures RowStart(Slot(n, p.profileEntries), |row|) + |row| <= |p.file|
    ensures CapturedRow(p, row, used)
         == Overwrite(Overwrite(p.file, 0, Header(Slot(n + 1, p.profileEntries), used)), RowStart(Slot(n, p.profileEntries), |row|), row)
  {
    SlotAdd(n, 1, p.profileEntries);
    RowStartGrows(Slot(n, p.profileEntries), p.profileEntries, |row|);
  }

  /** The header moved on and a row written to the slot it pointed to: the ring holds a longer list. */
  lemma RingAppends(p: Profile, history: seq<Row>, row: Row, used: nat, q: Profile)
    requires Shape(p, |row|) && RingHolds(p, history, |row|) && used < 65536
    requires q.profileEntries == p.profileEntries && q.file == CapturedRow(p, row, used)
    ensures |q.file| == |p.file| && Shape(q, |row|) && RingHolds(q, history + [row], |row|) && StoredCount(q.file) == used
  {
    hide Slot, SlotHolds, StoredIndex, StoredCount, RowStart, Overwrite, Header;
    var n, entries := |history|, p.profileEntries;
    var m := Slot(n, entries);
    var header := Header(Slot(n + 1, entries), used);
    CapturedRowIs(p, n, row, used);
    RowWritten(p.file, header, m, entries, row, q.file);
    StoredHeader(q.file, Slot(n + 1, entries), used);
    forall i | 0 <= i < n && n + 1 - entries <= i
      ensures SlotHolds(q.file, Slot(i, entries), history[i])
    {
      SlotsOfWindow(i, n, entries);
      RowKept(p.file, header, m, Slot(i, entries), entries, row, history[i], q.file);
    }
    LongerHolds(q, history, row);
  }

  /** A successful capture appends its row to the list that the file holds. */
  lemma CaptureAppends(p: Profile, history: seq<Row>, row: Row)
    requires Shape(p, |row|) && Holds(p, history, |row|)
    ensures var q := AfterCapture(p, row);
            |q.file| == |p.file| && Shape(q, |row|) && Holds(q, history + [row], |row|)
  {
    hide Slot, RingHolds, StoredIndex, StoredCount, RowStart, Overwrite, Header;
    RingAppends(p, history, row, Counted(p.entriesInUse, p.profileEntries), AfterCapture(p, row));
  }

  lemma ClearEmpties(p: Profile, rowSize: nat)
    requires Shape(p, rowSize)
    ensures |AfterClear(p).file| == |p.file| && Shape(AfterClear(p), rowSize) && Holds(AfterClear(p), [], rowSize)
  {
    hide Number;
    var file := AfterClear(p).file;
    assert file[..2] == [Hi(0), Lo(0)] && file[2..4] == [Hi(0), Lo(0)];
    NumberOfWord(0);
  }

  // ---------- runs ----------

  datatype Op = CaptureRow(row: Row) | CaptureFails(written: Row) | ClearAll

  /** A captured row has `rowSize` bytes, the written part of a failed one no more. */
  predicate OpFits(op: Op, rowSize: nat) {
    match op
    case CaptureRow(row) => |row| == rowSize
    case CaptureFails(written) => |written| <= rowSize
    case ClearAll => true
  }

  predicate RowsFitSize(ops: seq<Op>, rowSize: nat)
    decreases |ops|
  {
    ops == [] || (RowsFitSize(ops[..|ops| - 1], rowSize) && OpFits(ops[|ops| - 1], rowSize))
  }

  function AfterOp(p: Profile, op: Op, rowSize: nat): (q: Profile)
    requires Shape(p, rowSize) && OpFits(op, rowSize)
    ensures Shape(q, rowSize) && |q.file| == |p.file| && q.profileEntries == p.profileEntries
  {
    match op
    case CaptureRow(row) => AfterCapture(p, row)
    case CaptureFails(written) => AfterFailure(p, written, rowSize)
    case ClearAll => AfterClear(p)
  }

  /** The profile after `ops`, all of them captures of rows of `rowSize` bytes, good or failed, or clears. */
  function Run(p: Profile, ops: seq<Op>, rowSize: nat): (q: Profile)
    requires Shape(p, rowSize) && RowsFitSize(ops, rowSize)
    ensures Shape(q, rowSize) && |q.file| == |p.file| && q.profileEntries == p.profileEntries
    decreases |ops|
  {
    if ops == [] then p else AfterOp(Run(p, ops[..|ops| - 1], rowSize), ops[|ops| - 1], rowSize)
  }

  /** The rows captured since the last clear, oldest first. */
  function SinceClear(ops: seq<Op>): seq<Row>
    decreases |ops|
  {
    if ops == [] then []
    else match ops[|ops| - 1]
      case CaptureRow(row) => SinceClear(ops[..|ops| - 1]) + [row]
      case CaptureFails(_) => SinceClear(ops[..|ops| - 1])
      case ClearAll => []
  }

  /** No capture failed since the last clear. */
  predicate Undisturbed(ops: seq<Op>)
    decreases |ops|
  {
    ops == [] || ops[|ops| - 1].ClearAll? || (ops[|ops| - 1].CaptureRow? && Undisturbed(ops[..|ops| - 1]))
  }

  /** After any run without a failed capture since its last clear the file holds the latest rows. */
  lemma {:induction false} RunHolds(p: Profile, ops: seq<Op>, rowSize: nat)
    requires Shape(p, rowSize) && Holds(p, [], rowSize) && RowsFitSize(ops, rowSize) && Undisturbed(ops)
    ensures Holds(Run(p, ops, rowSize), SinceClear(ops), rowSize)
    decreases |ops|
  {
    hide Holds, AfterCapture, AfterFailure, AfterClear, Shape;
    if ops != [] {
      var before, op := ops[..|ops| - 1], ops[|ops| - 1];
      match op {
        case CaptureRow(row) =>
          RunHolds(p, before, rowSize);
          CaptureAppends(Run(p, before, rowSize), SinceClear(before), row);
        case ClearAll => ClearEmpties(Run(p, before, rowSize), rowSize);
      }
    }
  }

  /** `rows` is what the ring shows read from its oldest slot to its newest. */
  ghost predicate ReadsOut(p: Profile, rows: seq<Row>)
    requires p.profileEntries > 0
  {
    |rows| == p.entriesInUse <= p.profileEntries
    && forall i :: 0 <= i < |rows| ==>
         SlotHolds(p.file, Slot(StoredIndex(p.file) + p.profileEntries - p.entriesInUse + i, p.profileEntries), rows[i])
  }

  lemma SameSlot(n: nat, entries: nat, used: nat, i: nat)
    requires 0 < entries && used == Least(n, entries) && i < used
    ensures Slot(Slot(n, entries) + entries - used + i, entries) == Slot(n - used + i, entries)
  {
    if n >= entries { SlotAdd(n - entries, i, entries); }
  }

  /** Read oldest first, the ring is the tail of the list of captured rows. */
  lemma ReadOutIsTail(p: Profile, history: seq<Row>, rowSize: nat)
    requires Shape(p, rowSize) && Holds(p, history, rowSize)
    ensures ReadsOut(p, history[|history| - Least(|history|, p.profileEntries)..])
  {
    hide Slot, SlotHolds, RowStart, StoredIndex;
    var n, used := |history|, Least(|history|, p.profileEntries);
    var rows := history[n - used..];
    forall i | 0 <= i < used
      ensures SlotHolds(p.file, Slot(StoredIndex(p.file) + p.profileEntries - used + i, p.profileEntries), rows[i])
    {
      SameSlot(n, p.profileEntries, used, i);
      assert rows[i] == history[n - used + i];
    }
  }

  // ---------- sizes and failures ----------

  lemma QuotientBounds(c: nat, rowSize: nat)
    requires rowSize > 0
    ensures c / rowSize * rowSize <= c < (c / rowSize + 1) * rowSize
  {
    assert c == rowSize * (c / rowSize) + c % rowSize;
  }

  /** The capacity taken from the file size is the largest that fits in what sixteen bits keep of that size;
      of fewer than four bytes kept it is the largest that fits in 65536 bytes more. */
  lemma CapacityIsLargest(fileSize: nat, rowSize: nat)
    requires rowSize > 0
    ensures var n, kept := MaxRowCount(fileSize, rowSize), fileSize % 65536;
            RowStart(n, rowSize) <= (if kept >= 4 then kept else kept + 65536) < RowStart(n + 1, rowSize)
  {
    hide RowStart;
    var c := if fileSize % 65536 >= 4 then fileSize % 65536 - 4 else fileSize % 65536 + 65532;
    assert MaxRowCount(fileSize, rowSize) == c / rowSize;
    QuotientBounds(c, rowSize);
    RowStartIsProduct(c / rowSize, rowSize);
    RowStartIsProduct(c / rowSize + 1, rowSize);
  }

  /** It keeps every row inside the file unless the file is shorter than its own header, and uses the whole
      of it if the file is no longer than 65535 bytes. */
  lemma RowsFit(fileSize: nat, rowSize: nat)
    requires rowSize > 0
    ensures RowStart(MaxRowCount(fileSize, rowSize), rowSize) <= fileSize <==> fileSize >= 4
    ensures 4 <= fileSize < 65536 ==> fileSize < RowStart(MaxRowCount(fileSize, rowSize) + 1, rowSize)
  {
    hide RowStart, MaxRowCount;
    CapacityIsLargest(fileSize, rowSize);
    if fileSize < 4 { ShortFile(fileSize, rowSize); }
  }

  lemma ShortFile(fileSize: nat, rowSize: nat)
    requires rowSize > 0 && fileSize < 4
    ensures RowStart(MaxRowCount(fileSize, rowSize), rowSize) > fileSize
  {
  }

  /** The row that a failed capture leaves in its slot: the bytes written, then what was there before. */
  function Torn(p: Profile, written: Row, rowSize: nat): (row: Row)
    requires Shape(p, rowSize) && |written| <= rowSize
    ensures |row| == rowSize
  {
    RowStartGrows(Slot(StoredIndex(p.file), p.profileEntries), p.profileEntries, rowSize);
    var at := RowStart(Slot(StoredIndex(p.file), p.profileEntries), rowSize);
    written + p.file[at + |written|..at + rowSize]
  }

  lemma PartWritten(file: seq<Byte>, header: seq<Byte>, at: nat, written: Row, size: nat)
    requires |header| == 4 <= at && |written| <= size && at + size <= |file|
    ensures Overwrite(Overwrite(file, 0, header), at, written)
         == Overwrite(Overwrite(file, 0, header), at, written + file[at + |written|..at + size])
  {
    var f := Overwrite(file, 0, header);
    var rest := file[at + |written|..at + size];
    assert f[at + |written|..at + size] == rest;
    assert f[at + |written|..] == rest + f[at + size..];
    assert f[..at] + written + (rest + f[at + size..]) == f[..at] + (written + rest) + f[at + size..];
  }

  lemma FailureLeavesTorn(p: Profile, written: Row, rowSize: nat)
    requires Shape(p, rowSize) && |written| <= rowSize
    ensures AfterFailure(p, written, rowSize).file == CapturedRow(p, Torn(p, written, rowSize), Counted(p.entriesInUse, p.profileEntries))
  {
    hide Overwrite, StoredIndex, Slot, RowStart, Header;
    var index, entries := StoredIndex(p.file), p.profileEntries;
    RowStartGrows(Slot(index, entries), entries, rowSize);
    PartWritten(p.file, Header(Slot(index + 1, entries), Counted(p.entriesInUse, entries)), RowStart(Slot(index, entries), rowSize), written, rowSize);
  }

  /** A failed capture appends a torn row to what the ring holds. */
  lemma FailureAppends(p: Profile, history: seq<Row>, written: Row, rowSize: nat)
    requires Shape(p, rowSize) && RingHolds(p, history, rowSize) && |written| <= rowSize && p.entriesInUse <= p.profileEntries
    ensures var q := AfterFailure(p, written, rowSize);
            |q.file| == |p.file| && Shape(q, rowSize) && RingHolds(q, history + [Torn(p, written, rowSize)], rowSize)
            && StoredCount(q.file) == Counted(p.entriesInUse, p.profileEntries)
  {
    hide RingHolds, StoredCount, CapturedFile, CapturedRow, RowStart, Torn;
    FailureLeavesTorn(p, written, rowSize);
    RingAppends(p, history, Torn(p, written, rowSize), Counted(p.entriesInUse, p.profileEntries), AfterFailure(p, written, rowSize));
  }

  /** Every row left in the ring since the last clear, whole or torn, oldest first. */
  function Left(p: Profile, ops: seq<Op>, rowSize: nat): (rows: seq<Row>)
    requires Shape(p, rowSize) && RowsFitSize(ops, rowSize)
    ensures |rows| == Attempts(ops)
    decreases |ops|
  {
    if ops == [] then []
    else
      var before := ops[..|ops| - 1];
      match ops[|ops| - 1]
      case CaptureRow(row) => Left(p, before, rowSize) + [row]
      case CaptureFails(written) => Left(p, before, rowSize) + [Torn(Run(p, before, rowSize), written, rowSize)]
      case ClearAll => []
  }

  /** The captures since the last clear, good or failed. */
  function Attempts(ops: seq<Op>): nat
    decreases |ops|
  {
    if ops == [] || ops[|ops| - 1].ClearAll? then 0 else Attempts(ops[..|ops| - 1]) + 1
  }

  /** The counter after `ops`: full, it is set back by a failure and filled up again by a good capture. */
  function Counter(ops: seq<Op>, entries: nat): (c: nat)
    requires entries > 0
    ensures c <= entries && c <= Attempts(ops)
    decreases |ops|
  {
    if ops == [] then 0
    else
      var c := Counter(ops[..|ops| - 1], entries);
      match ops[|ops| - 1]
      case CaptureRow(_) => Counted(c, entries)
      case CaptureFails(_) => if c != entries then c else c - 1
      case ClearAll => 0
  }

  predicate FailedLast(ops: seq<Op>) { ops != [] && ops[|ops| - 1].CaptureFails? }

  /** What any run of captures, failed captures and clears leaves. */
  lemma {:induction false} RunLeaves(p: Profile, ops: seq<Op>, rowSize: nat)
    requires Shape(p, rowSize) && Holds(p, [], rowSize) && RowsFitSize(ops, rowSize)
    ensures var q := Run(p, ops, rowSize);
            RingHolds(q, Left(p, ops, rowSize), rowSize) && q.entriesInUse == Counter(ops, p.profileEntries)
            && StoredCount(q.file) == Counter(ops, p.profileEntries) + if FailedLast(ops) then 1 else 0
    decreases |ops|
  {
    hide RingHolds, CapturedFile, CapturedRow, Shape, StoredCount, Torn;
    if ops != [] {
      var before, op := ops[..|ops| - 1], ops[|ops| - 1];
      RunLeaves(p, before, rowSize);
      var q, left := Run(p, before, rowSize), Left(p, before, rowSize);
      match op {
        case CaptureRow(row) => GoodAppends(q, left, row);
        case CaptureFails(written) => FailureAppends(q, left, written, rowSize);
        case ClearAll => ClearEmpties(q, rowSize);
      }
    }
  }

  lemma GoodAppends(p: Profile, history: seq<Row>, row: Row)
    requires Shape(p, |row|) && RingHolds(p, history, |row|) && p.entriesInUse <= p.profileEntries
    ensures var q := AfterCapture(p, row);
            |q.file| == |p.file| && Shape(q, |row|) && RingHolds(q, history + [row], |row|)
            && StoredCount(q.file) == Counted(p.entriesInUse, p.profileEntries)
  {
    hide RingHolds, StoredCount, RowStart, Slot, Overwrite, Header;
    RingAppends(p, history, row, Counted(p.entriesInUse, p.profileEntries), AfterCapture(p, row));
  }

  /** Slots repeat after as many rows as there are entries, or any multiple of them. */
  lemma {:induction false} SlotSkips(n: nat, entries: nat)
    requires entries > 0
    ensures Slot(n, entries) <= n && forall i: nat :: Slot(n - Slot(n, entries) + i, entries) == Slot(i, entries)
  {
    if n >= entries {
      SlotSkips(n - entries, entries);
      var k := Slot(n, entries);
      forall i: nat
        ensures Slot(n - k + i, entries) == Slot(i, entries)
      {
        assert n - k + i - entries == (n - entries) - k + i;
      }
    }
  }

  /** The rows of a list that is as long as its last slot says. */
  lemma LastRowsHold(p: Profile, left: seq<Row>, rowSize: nat) returns (history: seq<Row>)
    requires Shape(p, rowSize) && RingHolds(p, left, rowSize)
    requires p.entriesInUse == Slot(|left|, p.profileEntries) == StoredCount(p.file)
    ensures Holds(p, history, rowSize)
  {
    hide Slot, SlotHolds, StoredIndex, StoredCount, RowStart;
    var n, entries := |left|, p.profileEntries;
    var k := Slot(n, entries);
    SlotSkips(n, entries);
    history := left[n - k..];
    assert Slot(k, entries) == k by { SlotOfSmall(k, entries); }
    forall i | 0 <= i < |history|
      ensures SlotHolds(p.file, Slot(i, entries), history[i]) && |history[i]| == rowSize
    {
      assert history[i] == left[n - k + i];
      assert Slot(n - k + i, entries) == Slot(i, entries);
    }
  }

  lemma SlotOfSmall(n: nat, entries: nat)
    requires n < entries
    ensures Slot(n, entries) == n
  {
  }

  /** After any run the file holds a list of rows exactly if the last capture did not fail and the counter
      is full or has as many rows as the header's index says. */
  lemma RunHoldsList(p: Profile, ops: seq<Op>, rowSize: nat)
    requires Shape(p, rowSize) && Holds(p, [], rowSize) && RowsFitSize(ops, rowSize)
    ensures var c, entries := Counter(ops, p.profileEntries), p.profileEntries;
            (exists history :: Holds(Run(p, ops, rowSize), history, rowSize))
            <==> !FailedLast(ops) && (c == entries || c == Attempts(ops) % entries)
  {
    hide Slot, RingHolds, RowStart, StoredIndex, StoredCount, Run, Left, Counter;
    var entries, q, left := p.profileEntries, Run(p, ops, rowSize), Left(p, ops, rowSize);
    RunLeaves(p, ops, rowSize);
    SlotIsRemainder(|left|, entries);
    if !FailedLast(ops) && (q.entriesInUse == entries || q.entriesInUse == Slot(|left|, entries)) {
      if q.entriesInUse == entries {
        assert Holds(q, left, rowSize);
      } else {
        var history := LastRowsHold(q, left, rowSize);
      }
    }
    forall history | Holds(q, history, rowSize)
      ensures !FailedLast(ops) && (q.entriesInUse == entries || q.entriesInUse == Slot(|left|, entries))
    {
      HeldCount(q, left, history, rowSize);
    }
  }

  lemma HeldCount(q: Profile, left: seq<Row>, history: seq<Row>, rowSize: nat)
    requires Shape(q, rowSize) && RingHolds(q, left, rowSize) && Holds(q, history, rowSize)
    ensures q.entriesInUse == StoredCount(q.file)
    ensures q.entriesInUse == q.profileEntries || q.entriesInUse == Slot(|left|, q.profileEntries)
  {
    hide SlotHolds, StoredIndex, StoredCount, RowStart;
    if |history| < q.profileEntries { SlotOfSmall(|history|, q.profileEntries); }
  }

  /** On a full ring a failed capture and a good one make header and counter agree again, over a torn
      row: the written bytes in front of the rest of the oldest row. */
  lemma TornRowStays(p: Profile, history: seq<Row>, written: Row, row: Row)
    requires Shape(p, |row|) && Holds(p, history, |row|) && |history| >= p.profileEntries && |written| <= |row|
    ensures var oldest := history[|history| - p.profileEntries];
            |oldest| == |row| && Shape(AfterFailure(p, written, |row|), |row|)
            && var q := AfterCapture(AfterFailure(p, written, |row|), row);
               Shape(q, |row|) && Holds(q, history + [written + oldest[|written|..]] + [row], |row|)
  {
    hide RingHolds, StoredCount, Torn, CapturedFile, CapturedRow, Slot, RowStart;
    TornOldest(p, history, written, |row|);
    FailureAppends(p, history, written, |row|);
    GoodAppends(AfterFailure(p, written, |row|), history + [Torn(p, written, |row|)], row);
  }

  lemma TornOldest(p: Profile, history: seq<Row>, written: Row, rowSize: nat)
    requires Shape(p, rowSize) && RingHolds(p, history, rowSize) && |history| >= p.profileEntries && |written| <= rowSize
    ensures var oldest := history[|history| - p.profileEntries];
            |oldest| == rowSize && Torn(p, written, rowSize) == written + oldest[|written|..]
  {
    hide StoredIndex, RowStart;
    var i := |history| - p.profileEntries;
    assert Slot(i, p.profileEntries) == Slot(|history|, p.profileEntries);
    assert SlotHolds(p.file, Slot(i, p.profileEntries), history[i]);
  }

  /** A capture that fails leaves the header one entry ahead of the counter, so the file then holds
      no list at all. */
  lemma FailedCaptureDiverges(p: Profile, written: Row, history: seq<Row>, rowSize: nat)
    requires Shape(p, rowSize) && |written| <= rowSize && Holds(p, history, rowSize)
    ensures var q := AfterFailure(p, written, rowSize);
            |q.file| == |p.file| && StoredCount(q.file) == q.entriesInUse + 1 && forall any :: !Holds(q, any, rowSize)
  {
    hide RingHolds, StoredCount, CapturedFile, Torn;
    FailureAppends(p, history, written, rowSize);
  }
}
