/**
  The detail pane of cabana: the palette signals are coloured with, the
  binary grid of the selected message (eight bit cells and one hex cell per
  byte, bit cells coloured by the signals covering them), the history log of
  received frames, and the check the edit-message dialog makes before saving.
*/
module CabanaDetail {
  import opened Common
  import Text

  /** The six signal colours, used in turn. */
  const SignalColors: seq<string> := ["#9FE2BF", "#40E0D0", "#6495ED", "#CCCCFF", "#FF7F50", "#FFBF00"]

  /** `getColor`: the colour of the i-th signal of a message. */
  function GetColor(i: nat): string {
    SignalColors[i % |SignalColors|]
  }

  /** A signal's colour is one of the six, the i-th for the first six signals. */
  lemma GetColorInPalette(i: nat)
    ensures GetColor(i) in SignalColors
    ensures i < |SignalColors| ==> GetColor(i) == SignalColors[i]
  {
  }

  /** Signals six apart share a colour, so the colours cycle. */
  lemma GetColorCycles(i: nat, k: nat)
    ensures GetColor(i) == GetColor(i + 6 * k)
  {
    SixApart(i, k);
  }

  /** Adding six `k` times leaves the remainder by six alone. */
  lemma {:induction false} SixApart(i: nat, k: nat)
    ensures (i + 6 * k) % 6 == i % 6
  {
    if k > 0 {
      SixApart(i, k - 1);
      var m := i + 6 * (k - 1);
      assert i + 6 * k == m + 6 && (m + 6) % 6 == m % 6;
    }
  }

  /** Any six consecutive signals get six different colours. */
  lemma GetColorDistinct(i: nat, j: nat)
    requires i < j < i + 6
    ensures GetColor(i) != GetColor(j)
  {
    var d := j - i;
    assert j % 6 == (i % 6 + d) % 6;
  }

  // ---------------------------------------------------------------------------
  // Bits and hex digits of one byte

  /** `b >> n` on a non-negative value. */
  function Shr(b: nat, n: nat): (r: nat)
    ensures r <= b
  {
    if n == 0 then b else Shr(b / 2, n - 1)
  }

  /** Bit `n` of a byte, 0 being the least significant: `(b >> n) & 1`. */
  predicate Bit(b: Byte, n: nat)
    requires n < 8
  {
    Shr(b as nat, n) % 2 == 1
  }

  function BitChar(set_: bool): char {
    if set_ then '1' else '0'
  }

  /** The `k` low bits of `b` as '0'/'1' characters, most significant first. */
  function LowBits(b: nat, k: nat): (s: string)
    ensures |s| == k
  {
    if k == 0 then [] else LowBits(b / 2, k - 1) + [BitChar(b % 2 == 1)]
  }

  /** `std::bitset<8>(b).to_string()`. */
  function BitString(b: Byte): (s: string)
    ensures |s| == 8
  {
    LowBits(b as nat, 8)
  }

  function Pow2(k: nat): (p: nat)
    ensures p >= 1
  {
    if k == 0 then 1 else 2 * Pow2(k - 1)
  }

  /** The value of a string of '0'/'1' characters read as a binary number, most significant first. */
  function FromBinary(s: string): nat {
    if s == [] then 0 else FromBinary(s[..|s| - 1]) * 2 + (if s[|s| - 1] == '1' then 1 else 0)
  }

  /** Position j of the k low bits is bit k-1-j. */
  lemma {:induction false} LowBitsAt(b: nat, k: nat, j: nat)
    requires j < k
    ensures LowBits(b, k)[j] == BitChar(Shr(b, k - 1 - j) % 2 == 1)
  {
    if j < k - 1 {
      LowBitsAt(b / 2, k - 1, j);
      assert LowBits(b, k)[j] == LowBits(b / 2, k - 1)[j];
    }
  }

  /** Reading the k low bits back as a binary number gives the value, when it fits in k bits. */
  lemma {:induction false} LowBitsValue(b: nat, k: nat)
    requires b < Pow2(k)
    ensures FromBinary(LowBits(b, k)) == b
  {
    if k > 0 {
      LowBitsValue(b / 2, k - 1);
      var s := LowBits(b, k);
      assert s[..|s| - 1] == LowBits(b / 2, k - 1);
    }
  }

  /** The bit string of a byte lists bits 7 down to 0 and reads back as the byte. */
  lemma BitStringMeaning(b: Byte)
    ensures forall j :: 0 <= j < 8 ==> BitString(b)[j] == BitChar(Bit(b, 7 - j))
    ensures FromBinary(BitString(b)) == b as nat
  {
    forall j | 0 <= j < 8
      ensures BitString(b)[j] == BitChar(Bit(b, 7 - j))
    {
      LowBitsAt(b as nat, 8, j);
    }
    assert Pow2(8) == 256;
    LowBitsValue(b as nat, 8);
  }

  /** `"%02X"` of a byte: two upper-case hex digits, high nibble first. */
  function Hex2(b: Byte): (s: string)
    ensures |s| == 2
  {
    [Text.HexUpper(b as int / 16), Text.HexUpper(b as int % 16)]
  }

  /** The two hex digits read back as a number give the byte. */
  lemma Hex2Value(b: Byte)
    ensures Text.DigitValue(Hex2(b)[0], 16).Some? && Text.DigitValue(Hex2(b)[1], 16).Some?
    ensures Text.DigitValue(Hex2(b)[0], 16).value * 16 + Text.DigitValue(Hex2(b)[1], 16).value == b as int
  {
  }

  // ---------------------------------------------------------------------------
  // The binary grid

  /**
    A DBC signal as the grid needs it. `msbIndex` is `bigEndianBitIndex(startBit)`,
    computed by DBC code that is not part of this model.
  */
  datatype Signal = Signal(name: string, isLittleEndian: bool, startBit: int, size: int, msbIndex: int)

  /** A DBC message: its byte size and its signals. */
  datatype DbcMsg = DbcMsg(name: string, size: nat, sigs: seq<Signal>)

  /** One table cell: its text and its background colour, if one was set. */
  datatype Cell = Cell(text: string, background: Option<string>)

  const Columns := 9

  /** The grid position where `setMessage` starts colouring a signal. */
  function ColorStart(sig: Signal): int {
    if sig.isLittleEndian then sig.startBit else sig.msbIndex
  }

  /** Index of table cell (row, col) in the row-major cell list. */
  function CellAt(row: nat, col: nat): nat {
    row * Columns + col
  }

  /** The cell that shows grid bit `j`: row j/8, column j%8. */
  function BitCell(j: nat): nat {
    CellAt(j / 8, j % 8)
  }

  /** The grid bit a bit cell shows. */
  function CellBit(c: nat): nat {
    c / Columns * 8 + c % Columns
  }

  lemma BitCellInverse(j: nat)
    ensures BitCell(j) % Columns == j % 8 && BitCell(j) / Columns == j / 8
    ensures CellBit(BitCell(j)) == j
  {
  }

  lemma CellBitInverse(c: nat)
    requires c % Columns < 8
    ensures BitCell(CellBit(c)) == c
  {
    var r, k := c / Columns, c % Columns;
    assert CellBit(c) == r * 8 + k;
    assert (r * 8 + k) / 8 == r && (r * 8 + k) % 8 == k;
  }

  /** A grid of `rows` rows has cells for bits 0 .. rows*8-1. */
  lemma BitCellInGrid(j: nat, rows: nat)
    requires j < rows * 8
    ensures BitCell(j) < rows * Columns
  {
    assert j / 8 < rows;
    assert BitCell(j) <= (rows - 1) * Columns + 7;
  }

  /**
    Whether signal `sig` colours grid bit `j` of a table of `rows` rows:
    bits from its start onwards, up to its size, as long as the table has them.
  */
  predicate Covers(sig: Signal, rows: nat, j: nat) {
    0 <= ColorStart(sig) <= j <= ColorStart(sig) + sig.size - 1 && j < rows * 8
  }

  /** The index of the last of `sigs` covering grid bit `j`, if any. */
  function LastCover(sigs: seq<Signal>, rows: nat, j: nat): (r: Option<nat>)
    ensures r.Some? ==> r.value < |sigs|
  {
    if sigs == [] then None
    else if Covers(sigs[|sigs| - 1], rows, j) then Some(|sigs| - 1)
    else LastCover(sigs[..|sigs| - 1], rows, j)
  }

  /** The background of cell `c` once all `sigs` are coloured: the colour of the last signal covering it. */
  function Background(sigs: seq<Signal>, rows: nat, c: nat): Option<string> {
    if c % Columns < 8 && LastCover(sigs, rows, CellBit(c)).Some? then
      Some(GetColor(LastCover(sigs, rows, CellBit(c)).value))
    else None
  }

  /**
    A bit is covered by the signal `LastCover` names and by no later one; when
    it names none, no signal covers the bit. So a bit cell is coloured iff some
    signal covers its bit, with the colour of the last such signal, and the hex
    column is never coloured.
  */
  lemma {:induction false} LastCoverMeaning(sigs: seq<Signal>, rows: nat, j: nat)
    ensures LastCover(sigs, rows, j).Some? ==>
      var i := LastCover(sigs, rows, j).value;
      Covers(sigs[i], rows, j) && forall k :: i < k < |sigs| ==> !Covers(sigs[k], rows, j)
    ensures LastCover(sigs, rows, j).None? ==> forall k :: 0 <= k < |sigs| ==> !Covers(sigs[k], rows, j)
  {
    if sigs != [] {
      var n := |sigs| - 1;
      LastCoverMeaning(sigs[..n], rows, j);
      assert forall k :: 0 <= k < n ==> sigs[..n][k] == sigs[k];
    }
  }

  /** The text cell `c` shows after `updateState` with `data` on a table of `rows` rows. */
  function RenderedText(old_: string, data: seq<Byte>, rows: nat, c: nat): string {
    var i := c / Columns;
    if i < |data| && i < rows then
      if c % Columns < 8 then [BitString(data[i])[c % Columns]] else Hex2(data[i])
    else old_
  }

  /** Rendered bit cell (i, j) is '1' iff bit 7-j of byte i is set; cell (i, 8) is its two hex digits. */
  lemma RenderedCells(old_: string, data: seq<Byte>, rows: nat, i: nat, j: nat)
    requires i < |data| && i < rows && j <= 8
    ensures j < 8 ==> RenderedText(old_, data, rows, CellAt(i, j)) == [BitChar(Bit(data[i], 7 - j))]
    ensures j == 8 ==> RenderedText(old_, data, rows, CellAt(i, j)) == Hex2(data[i])
  {
    assert CellAt(i, j) / Columns == i && CellAt(i, j) % Columns == j;
    BitStringMeaning(data[i]);
  }

  /** The binary grid of the detail pane (`BinaryView` in detailwidget.cc). */
  class BinaryGrid {
    var rowCount: nat
    /** Cells in row-major order, nine per row. */
    var cells: seq<Cell>

    ghost predicate Valid()
      reads this
    {
      |cells| == rowCount * Columns
    }

    constructor()
      ensures Valid() && rowCount == 0 && cells == []
    {
      rowCount := 0;
      cells := [];
    }

    /**
      `setMessage`: as many rows as the DBC message has bytes, else as the last
      data has; fresh cells; each signal's bits coloured; then the data shown.
      Colouring stops at a signal's first bit outside the table, as the
      model view of binaryview.cc does.
    */
    method SetMessage(msg: Option<DbcMsg>, lastLen: nat, data: seq<Byte>)
      modifies this
      ensures Valid()
      ensures rowCount == (if msg.Some? then msg.value.size else lastLen)
      ensures forall c :: 0 <= c < |cells| ==>
        cells[c].background == (if msg.Some? then Background(msg.value.sigs, rowCount, c) else None) &&
        cells[c].text == RenderedText("", data, rowCount, c)
    {
      rowCount := if msg.Some? then msg.value.size else lastLen;
      cells := seq(rowCount * Columns, _ => Cell("", None));
      if msg.Some? {
        ColorSignals(msg.value.sigs);
      }
      UpdateState(data);
    }

    /** Colours the bit cells of each signal in turn. */
    method ColorSignals(sigs: seq<Signal>)
      requires Valid()
      requires forall c :: 0 <= c < |cells| ==> cells[c].background == None
      modifies this`cells
      ensures Valid()
      ensures forall c :: 0 <= c < |cells| ==>
        cells[c] == old(cells[c]).(background := Background(sigs, rowCount, c))
    {
      var i := 0;
      while i < |sigs|
        invariant 0 <= i <= |sigs|
        invariant Valid()
        invariant forall c :: 0 <= c < |cells| ==>
          cells[c] == old(cells[c]).(background := Background(sigs[..i], rowCount, c))
      {
        assert sigs[..i + 1][..i] == sigs[..i];
        ColorSignal(sigs[..i + 1]);
        i := i + 1;
      }
      assert sigs[..i] == sigs;
    }

    /** Colours the bits of the last of `sigs`, from its start up to its size or the end of the table. */
    method ColorSignal(sigs: seq<Signal>)
      requires Valid() && sigs != []
      requires forall c :: 0 <= c < |cells| ==> cells[c].background == Background(sigs[..|sigs| - 1], rowCount, c)
      modifies this`cells
      ensures Valid()
      ensures forall c :: 0 <= c < |cells| ==>
        cells[c] == old(cells[c]).(background := Background(sigs, rowCount, c))
    {
      var n := |sigs| - 1;
      var sig := sigs[n];
      var start := ColorStart(sig);
      if start >= 0 {
        var j: int := start;
        while j <= start + sig.size - 1 && j < rowCount * 8
          invariant start <= j
          invariant j == start || (j <= start + sig.size && j <= rowCount * 8)
          invariant Valid()
          invariant forall c :: 0 <= c < |cells| ==>
            cells[c] == old(cells[c]).(background :=
              if c % Columns < 8 && start <= CellBit(c) < j then Some(GetColor(n)) else old(cells[c].background))
          decreases rowCount * 8 - j
        {
          BitCellInGrid(j, rowCount);
          BitCellInverse(j);
          cells := cells[BitCell(j) := cells[BitCell(j)].(background := Some(GetColor(n)))];
          j := j + 1;
        }
      }
    }

    /**
      `updateState`: the bit cells of each byte show its bits most significant
      first and the last cell its two upper-case hex digits. Only rows the
      table has are written.
    */
    method UpdateState(data: seq<Byte>)
      requires Valid()
      modifies this`cells
      ensures Valid()
      ensures forall c :: 0 <= c < |cells| ==>
        cells[c] == old(cells[c]).(text := RenderedText(old(cells[c].text), data, rowCount, c))
    {
      // The bits of all bytes, most significant first, as one string.
      var s := "";
      var k := 0;
      while k < |data|
        invariant 0 <= k <= |data|
        invariant |s| == 8 * k
        invariant forall m, j :: 0 <= m < k && 0 <= j < 8 ==> s[BitPos(m, j)] == BitString(data[m])[j]
      {
        s := s + BitString(data[k]);
        k := k + 1;
      }
      var i := 0;
      while i < |data| && i < rowCount
        invariant 0 <= i <= rowCount
        invariant Valid()
        invariant forall c :: 0 <= c < |cells| ==>
          cells[c] == old(cells[c]).(text :=
            if c / Columns < i then RenderedText(old(cells[c].text), data, rowCount, c) else old(cells[c].text))
      {
        var j := 0;
        while j < 8
          invariant 0 <= j <= 8
          invariant Valid()
          invariant forall c :: 0 <= c < |cells| ==>
            cells[c] == old(cells[c]).(text :=
              if c / Columns < i || (c / Columns == i && c % Columns < j)
              then RenderedText(old(cells[c].text), data, rowCount, c) else old(cells[c].text))
        {
          assert CellAt(i, j) < |cells| by { assert CellAt(i, j) <= (rowCount - 1) * Columns + 8; }
          assert CellAt(i, j) / Columns == i && CellAt(i, j) % Columns == j;
          cells := cells[CellAt(i, j) := cells[CellAt(i, j)].(text := [s[BitPos(i, j)]])];
          j := j + 1;
        }
        assert CellAt(i, 8) < |cells| by { assert CellAt(i, 8) <= (rowCount - 1) * Columns + 8; }
        assert CellAt(i, 8) / Columns == i && CellAt(i, 8) % Columns == 8;
        cells := cells[CellAt(i, 8) := cells[CellAt(i, 8)].(text := Hex2(data[i]))];
        i := i + 1;
      }
    }
  }

  /** Position of bit j of byte m in the concatenated bit string. */
  function BitPos(m: nat, j: nat): nat {
    m * 8 + j
  }

  // ---------------------------------------------------------------------------
  // The grid as detailwidget.cc writes it

  /**
    The table rows `updateState` writes, as written: one for every data byte,
    whether or not the table has that row.
  */
  function WrittenRowsAsWritten(data: seq<Byte>): (rows: seq<nat>)
    ensures |rows| == |data| && forall k :: 0 <= k < |rows| ==> rows[k] == k
  {
    seq(|data|, k => k)
  }

  /**
    The grid bits `setMessage` colours for one signal, as written: all of
    start .. start+size-1, whether or not the table has a cell for them.
  */
  function ColoredBitsAsWritten(sig: Signal): (bits: seq<int>)
    ensures |bits| == (if sig.size > 0 then sig.size else 0)
    ensures forall k :: 0 <= k < |bits| ==> bits[k] == ColorStart(sig) + k
  {
    seq(if sig.size > 0 then sig.size else 0, k => ColorStart(sig) + k)
  }

  /**
    With more data bytes than table rows (a DBC size below the data length),
    `updateState` writes row `rowCount`, which the table lacks: `item` is
    null there. One byte of DBC size and two of data is such a case.
  */
  lemma DataLongerThanTable(data: seq<Byte>, rowCount: nat)
    requires |data| > rowCount
    ensures rowCount in WrittenRowsAsWritten(data)
  {
    assert WrittenRowsAsWritten(data)[rowCount] == rowCount;
  }

  /**
    A signal running past the last row (16 bits from bit 0 in a one-byte
    message, say) makes `setMessage` colour grid bit rows*8, whose row the
    table lacks.
  */
  lemma SignalPastTable(sig: Signal, rows: nat)
    requires 0 <= ColorStart(sig) <= rows * 8 < ColorStart(sig) + sig.size
    ensures rows * 8 in ColoredBitsAsWritten(sig) && (rows * 8) / 8 == rows
  {
    assert ColoredBitsAsWritten(sig)[rows * 8 - ColorStart(sig)] == rows * 8;
  }

  /** Every bit a corrected colouring covers has a cell in the table. */
  lemma CoveredBitsInTable(sig: Signal, rows: nat, j: nat)
    requires Covers(sig, rows, j)
    ensures BitCell(j) < rows * Columns && j / 8 < rows && j in ColoredBitsAsWritten(sig)
  {
    BitCellInGrid(j, rows);
    assert ColoredBitsAsWritten(sig)[j - ColorStart(sig)] == j;
  }

  // ---------------------------------------------------------------------------
  // The history log

  /** One received frame of the selected message. */
  datatype CanData = CanData(ts: real, count: int, dat: seq<Byte>)

  /**
    The frames `HistoryLog::updateState` takes from `msgs`, in order, and the
    `previous_count` it ends with: a frame is taken when its count exceeds the
    count of the last frame taken (or `prev` before any).
  */
  function Accept(msgs: seq<CanData>, prev: int): (r: (seq<CanData>, int))
    ensures r.1 >= prev
  {
    if msgs == [] then ([], prev)
    else
      var r := Accept(msgs[..|msgs| - 1], prev);
      var m := msgs[|msgs| - 1];
      if m.count <= r.1 then r else (r.0 + [m], m.count)
  }

  /**
    The frames taken are frames of `msgs`, each with a count above `prev`, in
    strictly increasing count order, and the count kept is the last one taken.
  */
  lemma {:induction false} AcceptIncreasing(msgs: seq<CanData>, prev: int)
    ensures var r := Accept(msgs, prev);
      (r.0 == [] ==> r.1 == prev) &&
      (r.0 != [] ==> r.1 == r.0[|r.0| - 1].count) &&
      (forall k :: 0 <= k < |r.0| ==> r.0[k].count > prev && r.0[k] in msgs) &&
      (forall k, m :: 0 <= k < m < |r.0| ==> r.0[k].count < r.0[m].count)
  {
    if msgs != [] {
      var init := msgs[..|msgs| - 1];
      AcceptIncreasing(init, prev);
      var r := Accept(init, prev);
      forall k | 0 <= k < |r.0| ensures r.0[k] in msgs {
        var t :| 0 <= t < |init| && init[t] == r.0[k];
        assert msgs[t] == r.0[k];
      }
    }
  }

  /** The largest count in `msgs`, or `prev` if none exceeds it. */
  function MaxCount(msgs: seq<CanData>, prev: int): int {
    if msgs == [] then prev
    else
      var m := MaxCount(msgs[..|msgs| - 1], prev);
      if msgs[|msgs| - 1].count > m then msgs[|msgs| - 1].count else m
  }

  /**
    The count `updateState` ends with is the largest count seen, and the k-th
    frame is taken iff its count exceeds every earlier count and `prev`.
  */
  lemma {:induction false} AcceptRunningMax(msgs: seq<CanData>, prev: int)
    ensures Accept(msgs, prev).1 == MaxCount(msgs, prev)
    ensures msgs != [] ==>
      (Accept(msgs, prev).0 == Accept(msgs[..|msgs| - 1], prev).0 + [msgs[|msgs| - 1]] <==>
       msgs[|msgs| - 1].count > MaxCount(msgs[..|msgs| - 1], prev))
  {
    if msgs != [] {
      AcceptRunningMax(msgs[..|msgs| - 1], prev);
    }
  }

  /**
    A row of the log table: the timestamp in its vertical header, and its
    cells, which `clearContents` empties (None) while the header stays.
  */
  datatype LogRow = LogRow(ts: real, cells: Option<CanData>)

  /** Each frame as the table row it becomes, newest first. */
  function NewRows(taken: seq<CanData>): (rows: seq<LogRow>)
    ensures |rows| == |taken|
    ensures forall k :: 0 <= k < |taken| ==>
      rows[k] == LogRow(taken[|taken| - 1 - k].ts, Some(taken[|taken| - 1 - k]))
  {
    if taken == [] then [] else [LogRow(taken[|taken| - 1].ts, Some(taken[|taken| - 1]))] + NewRows(taken[..|taken| - 1])
  }

  /** The rows after `clearContents`: each keeps its header and loses its cells. */
  function Cleared(rows: seq<LogRow>): seq<LogRow> {
    seq(|rows|, k requires 0 <= k < |rows| => LogRow(rows[k].ts, None))
  }

  function Truncate<T>(s: seq<T>, n: nat): (r: seq<T>)
    ensures |r| <= n && |r| <= |s| && r == s[..|r|]
    ensures |s| <= n ==> r == s
    ensures |s| > n ==> |r| == n
  {
    if |s| > n then s[..n] else s
  }

  /** One frame of the `updateState` loop: the rows and count after it, from those after the frames before it. */
  lemma AcceptStep(msgs: seq<CanData>, prev: int, k: nat)
    requires k < |msgs|
    ensures var r := Accept(msgs[..k], prev);
      Accept(msgs[..k + 1], prev) == (if msgs[k].count > r.1 then (r.0 + [msgs[k]], msgs[k].count) else r)
    ensures var r := Accept(msgs[..k], prev);
      NewRows(r.0 + [msgs[k]]) == [LogRow(msgs[k].ts, Some(msgs[k]))] + NewRows(r.0)
  {
    assert msgs[..k + 1][..k] == msgs[..k];
    var taken := Accept(msgs[..k], prev).0;
    assert (taken + [msgs[k]])[..|taken|] == taken;
  }

  /**
    The loop of `updateState`: each frame whose count is above the last one
    kept is put on top of `rows0`; the rows and the last count are returned.
  */
  method AcceptAll(canMsgs: seq<CanData>, prev: int, rows0: seq<LogRow>)
    returns (rows: seq<LogRow>, count: int)
    ensures count == Accept(canMsgs, prev).1
    ensures rows == NewRows(Accept(canMsgs, prev).0) + rows0
  {
    rows, count := rows0, prev;
    var k := 0;
    while k < |canMsgs|
      invariant 0 <= k <= |canMsgs|
      invariant count == Accept(canMsgs[..k], prev).1
      invariant rows == NewRows(Accept(canMsgs[..k], prev).0) + rows0
    {
      AcceptStep(canMsgs, prev, k);
      var m := canMsgs[k];
      if m.count > count {
        rows := [LogRow(m.ts, Some(m))] + rows;
        count := m.count;
      }
      k := k + 1;
    }
    assert canMsgs[..k] == canMsgs;
  }

  /** The history log (`HistoryLog`): received frames, newest in the top row. */
  class HistoryLog {
    /** Table rows, top first. */
    var rows: seq<LogRow>
    var previousCount: int
    var columns: seq<string>
    /** `CAN_MSG_LOG_SIZE`, declared in canmessages.h. */
    const logSize: nat

    constructor(logSize: nat)
      ensures this.logSize == logSize && rows == [] && previousCount == 0 && columns == []
    {
      this.logSize := logSize;
      rows := [];
      previousCount := 0;
      columns := [];
    }

    /**
      `updateState`: each frame whose count exceeds the last count taken goes
      on top; then the table is cut to `logSize` rows.
    */
    method UpdateState(canMsgs: seq<CanData>)
      modifies this`rows, this`previousCount
      ensures previousCount == Accept(canMsgs, old(previousCount)).1
      ensures rows == Truncate(NewRows(Accept(canMsgs, old(previousCount)).0) + old(rows), logSize)
      ensures |rows| <= logSize
    {
      var newRows, count := AcceptAll(canMsgs, previousCount, rows);
      rows := Truncate(newRows, logSize);
      previousCount := count;
    }

    /**
      `clear`: the count starts over and every row's cells are emptied; the
      rows themselves and their header timestamps stay.
    */
    method Clear()
      modifies this`rows, this`previousCount
      ensures previousCount == 0
      ensures |rows| == |old(rows)|
      ensures forall k :: 0 <= k < |rows| ==> rows[k].cells.None? && rows[k].ts == old(rows)[k].ts
    {
      previousCount := 0;
      rows := Cleared(rows);
    }

    /**
      `setMessage`: cleared, one column per signal (or one "data" column), and
      filled from the message's frames.
    */
    method SetMessage(msg: Option<DbcMsg>, canMsgs: seq<CanData>)
      modifies this`rows, this`previousCount, this`columns
      ensures columns == (if msg.Some? && msg.value.sigs != [] then SignalNames(msg.value.sigs) else ["data"])
      ensures previousCount == Accept(canMsgs, 0).1
      ensures rows == Truncate(NewRows(Accept(canMsgs, 0).0) + Cleared(old(rows)), logSize)
    {
      Clear();
      columns := if msg.Some? && msg.value.sigs != [] then SignalNames(msg.value.sigs) else ["data"];
      assert rows == Cleared(old(rows));
      UpdateState(canMsgs);
    }
  }

  function SignalNames(sigs: seq<Signal>): (names: seq<string>)
    ensures |names| == |sigs| && forall i :: 0 <= i < |sigs| ==> names[i] == sigs[i].name
  {
    seq(|sigs|, i requires 0 <= i < |sigs| => sigs[i].name)
  }

  // ---------------------------------------------------------------------------
  // The edit-message dialog

  /**
    `EditMessageDialog::save`: the name and size given to `updateMsg`, or None
    when the dialog refuses to save.
  */
  function Save(size: int, name: string): (r: Option<(string, nat)>)
    ensures r.None? <==> size <= 0 || name == "" || name == "untitled"
    ensures r.Some? ==> r.value.0 == name && r.value.1 == size
  {
    if size <= 0 || name == "" || name == "untitled" then None else Some((name, size))
  }

  /** The name field starts as the DBC name, or "untitled" for a message not in the DBC. */
  function InitialName(msg: Option<DbcMsg>): string {
    if msg.Some? then msg.value.name else "untitled"
  }

  /** A message not in the DBC cannot be saved without first being named. */
  lemma UnnamedNotSaved(size: int)
    ensures Save(size, InitialName(None)) == None
  {
  }
}
