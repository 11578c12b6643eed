/**
  The bit grid of cabana's message view: a model with one row per message
  byte and nine columns (eight bits, then the byte in hex), the signals of the
  DBC message laid onto the bit cells, and the view's selection and
  drag-to-resize arithmetic.
*/
module CabanaBinaryView {
  import opened Common
  import Text
  import CabanaDetail

  /** `column_count`: eight bit columns and one hex column (declared in binaryview.h). */
  const ColumnCount := 9

  /** A model index: the row and column of a cell. */
  datatype Index = Index(row: int, col: int)

  /** `get_bit_index`: the bit a cell stands for, counted from the row's low bit for little-endian signals. */
  function GetBitIndex(index: Index, littleEndian: bool): (b: int)
    ensures 0 <= index.col < 8 ==> index.row * 8 <= b <= index.row * 8 + 7
  {
    if littleEndian then index.row * 8 + 7 - index.col else index.row * 8 + index.col
  }

  /**
    On a bit column, the bit index names the cell's row and, read in the other
    endianness, the mirrored column: the two numberings are each other's mirror image.
  */
  lemma GetBitIndexCell(row: nat, col: nat, littleEndian: bool)
    requires col < 8
    ensures GetBitIndex(Index(row, col), littleEndian) / 8 == row
    ensures GetBitIndex(Index(row, col), littleEndian) % 8 == (if littleEndian then 7 - col else col)
    ensures GetBitIndex(Index(row, col), true) == GetBitIndex(Index(row, 7 - col), false)
  {
  }

  // ---------------------------------------------------------------------------
  // Laying signals onto the grid

  /**
    A DBC signal as the grid needs it. `from` .. `to` is the range
    `getSignalRange` gives; `bits[k]` is the grid bit of range bit from+k:
    `bigEndianBitIndex(from + k)` for a little-endian signal, from+k for a
    big-endian one. Both functions are DBC code that is not part of this model.
  */
  datatype Signal = Signal(name: string, isLittleEndian: bool, from: int, to: int, bits: seq<int>)

  /** The shape the DBC code gives a signal: one grid bit for each bit of its range. */
  predicate Shaped(sig: Signal) {
    |sig.bits| == if sig.from <= sig.to then sig.to - sig.from + 1 else 0
  }

  /** A DBC message: its byte size and its signals. */
  datatype Msg = Msg(size: nat, sigs: seq<Signal>)

  /**
    One cell of the grid: its text, its background, whether a signal's most or
    least significant bit is there, and the signals (by index in the message)
    laid on it, in order.
  */
  datatype Item = Item(val: string, bgColor: Option<string>, isMsb: bool, isLsb: bool, sigs: seq<nat>)

  const EmptyItem := Item("", None, false, false, [])

  /** The cell of grid bit `b`: `column_count * (b / 8) + b % 8`, dividing as C does. */
  function CellOf(b: int): int {
    ColumnCount * TruncDiv(b, 8) + (b - 8 * TruncDiv(b, 8))
  }

  /** A non-negative bit is in row b/8, column b%8 (never the hex column); a negative one has a negative cell. */
  lemma CellOfMeaning(b: int)
    ensures b >= 0 ==> CellOf(b) == ColumnCount * (b / 8) + b % 8
    ensures b >= 0 ==> CellOf(b) / ColumnCount == b / 8 && CellOf(b) % ColumnCount == b % 8
    ensures b < 0 ==> CellOf(b) < 0
  {
    var q := TruncDiv(b, 8);
    if b >= 0 {
      assert q == b / 8;
    } else {
      assert CellOf(b) == b + q;
      assert q <= 0;
    }
  }

  /**
    How many of `bits`, from the first, are laid onto a grid of `n` cells:
    the scan stops at the first bit whose cell is outside the grid. (The
    source compares the signed cell index with the unsigned size, so a
    negative index stops it too.)
  */
  function Placed(bits: seq<int>, n: nat): (r: nat)
    ensures r <= |bits|
    ensures forall k :: 0 <= k < r ==> 0 <= CellOf(bits[k]) < n
    ensures r < |bits| ==> !(0 <= CellOf(bits[r]) < n)
  {
    if bits == [] || !(0 <= CellOf(bits[0]) < n) then 0
    else
      var r := Placed(bits[1..], n);
      assert forall k :: 1 <= k < 1 + r ==> bits[k] == bits[1..][k - 1];
      1 + r
  }

  /** The scan goes on past bit `k` exactly when bit `k` exists and its cell is inside the grid. */
  lemma PlacedStop(bits: seq<int>, n: nat, k: nat)
    requires k <= Placed(bits, n)
    ensures k < Placed(bits, n) <==> k < |bits| && 0 <= CellOf(bits[k]) < n
  {
  }

  /** The cells a signal's bits are laid on, in scan order. */
  function PlacedCells(bits: seq<int>, n: nat): (cells: seq<nat>)
    ensures |cells| == Placed(bits, n)
    ensures forall k :: 0 <= k < |cells| ==> cells[k] == CellOf(bits[k]) && cells[k] < n
  {
    seq(Placed(bits, n), k requires 0 <= k < Placed(bits, n) => CellOf(bits[k]) as nat)
  }

  /** No signal bit is laid on the hex column. */
  lemma PlacedCellsAreBitCells(bits: seq<int>, n: nat, k: nat)
    requires k < Placed(bits, n)
    ensures PlacedCells(bits, n)[k] % ColumnCount < 8
    ensures PlacedCells(bits, n)[k] % ColumnCount == bits[k] % 8 && PlacedCells(bits, n)[k] / ColumnCount == bits[k] / 8
  {
    CellOfMeaning(bits[k]);
  }

  function Repeat(x: nat, m: nat): (r: seq<nat>)
    ensures |r| == m && forall k :: 0 <= k < m ==> r[k] == x
  {
    seq(m, _ => x)
  }

  /** The signals laid on cell `c`: each signal, in message order, once per bit it lays there. */
  function SigsAt(sigs: seq<Signal>, n: nat, c: nat): seq<nat> {
    if sigs == [] then []
    else SigsAt(sigs[..|sigs| - 1], n, c) + Repeat(|sigs| - 1, multiset(PlacedCells(sigs[|sigs| - 1].bits, n))[c])
  }

  /**
    Whether `sig` puts the LSB (`lsb`) or MSB (!`lsb`) flag on cell `c`: its
    first bit carries the LSB flag for a little-endian signal and the MSB flag
    otherwise, its last bit the other flag. The first bit is flagged once laid;
    the last only if the scan reached it.
  */
  predicate FlagCell(sig: Signal, n: nat, c: nat, lsb: bool) {
    var cells := PlacedCells(sig.bits, n);
    (sig.isLittleEndian == lsb && |cells| > 0 && cells[0] == c) ||
    (sig.isLittleEndian != lsb && |cells| == |sig.bits| > 0 && cells[|cells| - 1] == c)
  }

  /** Whether some signal of `sigs` puts that flag on cell `c`. */
  predicate AnyFlag(sigs: seq<Signal>, n: nat, c: nat, lsb: bool) {
    sigs != [] && (AnyFlag(sigs[..|sigs| - 1], n, c, lsb) || FlagCell(sigs[|sigs| - 1], n, c, lsb))
  }

  /** The background of a cell: the colour of the last signal laid on it. */
  function ColorOf(sigs: seq<nat>): Option<string> {
    if sigs == [] then None else Some(CabanaDetail.GetColor(sigs[|sigs| - 1]))
  }

  /** Cell `c` of a grid of `n` cells once all of `sigs` are laid out. */
  function Layout(sigs: seq<Signal>, n: nat, c: nat): Item {
    var ss := SigsAt(sigs, n, c);
    Item("", ColorOf(ss), AnyFlag(sigs, n, c, false), AnyFlag(sigs, n, c, true), ss)
  }

  /** Cell `c` once the signals `done` are laid out and the first `k` bits of signal `cur` after them. */
  function Partial(done: seq<Signal>, n: nat, c: nat, cur: Signal, k: nat): Item
    requires k <= Placed(cur.bits, n)
  {
    var ss := SigsAt(done, n, c) + Repeat(|done|, multiset(PlacedCells(cur.bits, n)[..k])[c]);
    Item("", ColorOf(ss), AnyFlag(done, n, c, false) || FlagSoFar(cur, n, c, k, false),
      AnyFlag(done, n, c, true) || FlagSoFar(cur, n, c, k, true), ss)
  }

  /** `FlagCell` for a signal whose first `k` bits have been laid. */
  predicate FlagSoFar(sig: Signal, n: nat, c: nat, k: nat, lsb: bool)
    requires k <= Placed(sig.bits, n)
  {
    (sig.isLittleEndian == lsb && k > 0 && CellOf(sig.bits[0]) == c) ||
    (sig.isLittleEndian != lsb && k == |sig.bits| > 0 && CellOf(sig.bits[k - 1]) == c)
  }

  /** What `setMessage` does to a cell when it lays bit `k` of signal `i` on it. */
  function Mark(item: Item, i: nat, littleEndian: bool, first: bool, last: bool): Item {
    var a := if !first then item else if littleEndian then item.(isLsb := true) else item.(isMsb := true);
    var b := if !last then a else if littleEndian then a.(isMsb := true) else a.(isLsb := true);
    b.(bgColor := Some(CabanaDetail.GetColor(i)), sigs := b.sigs + [i])
  }

  /** The signals of a cell while `cur` is being laid, with `h` of its bits laid there so far. */
  function SigsSoFar(done: seq<Signal>, n: nat, c: nat, h: nat): seq<nat> {
    SigsAt(done, n, c) + Repeat(|done|, h)
  }

  lemma SigsSoFarStep(done: seq<Signal>, n: nat, c: nat, h: nat)
    ensures SigsSoFar(done, n, c, h + 1) == SigsSoFar(done, n, c, h) + [|done|]
  {
    assert Repeat(|done|, h + 1) == Repeat(|done|, h) + [|done|];
  }

  /** Laying bit k adds one to the count of its own cell. */
  lemma HitsStep(cells: seq<nat>, k: nat, c: nat)
    requires k < |cells|
    ensures multiset(cells[..k + 1])[c] == multiset(cells[..k])[c] + (if c == cells[k] then 1 else 0)
  {
    assert cells[..k + 1] == cells[..k] + [cells[k]];
  }

  /** Laying bit k adds the first-bit flag when k is the first bit and the last-bit flag when it is the last. */
  lemma FlagSoFarStep(sig: Signal, n: nat, c: nat, k: nat, lsb: bool)
    requires k < Placed(sig.bits, n)
    ensures FlagSoFar(sig, n, c, k + 1, lsb) ==
      (FlagSoFar(sig, n, c, k, lsb) ||
       (c == CellOf(sig.bits[k]) &&
        ((sig.isLittleEndian == lsb && k == 0) || (sig.isLittleEndian != lsb && k == |sig.bits| - 1))))
  {
  }

  /** Laying bit `k` of `cur` changes its own cell as `Mark` does and no other. */
  lemma PartialStep(done: seq<Signal>, n: nat, c: nat, cur: Signal, k: nat)
    requires k < Placed(cur.bits, n)
    ensures Partial(done, n, c, cur, k + 1) ==
      if c == CellOf(cur.bits[k]) then Mark(Partial(done, n, c, cur, k), |done|, cur.isLittleEndian, k == 0, k == |cur.bits| - 1)
      else Partial(done, n, c, cur, k)
  {
    var cells := PlacedCells(cur.bits, n);
    HitsStep(cells, k, c);
    var h := multiset(cells[..k])[c];
    FlagSoFarStep(cur, n, c, k, true);
    FlagSoFarStep(cur, n, c, k, false);
    assert Partial(done, n, c, cur, k).sigs == SigsSoFar(done, n, c, h);
    if c == CellOf(cur.bits[k]) {
      SigsSoFarStep(done, n, c, h);
      assert Partial(done, n, c, cur, k + 1).sigs == SigsSoFar(done, n, c, h) + [|done|];
    } else {
      assert Partial(done, n, c, cur, k + 1).sigs == SigsSoFar(done, n, c, h);
    }
  }

  /** Before any bit of `cur` is laid, a cell is as `done` left it. */
  lemma PartialStart(done: seq<Signal>, n: nat, c: nat, cur: Signal)
    ensures Partial(done, n, c, cur, 0) == Layout(done, n, c)
  {
    assert SigsAt(done, n, c) + Repeat(|done|, 0) == SigsAt(done, n, c);
  }

  lemma SigsAtSnoc(done: seq<Signal>, n: nat, c: nat, cur: Signal)
    ensures SigsAt(done + [cur], n, c) == SigsAt(done, n, c) + Repeat(|done|, multiset(PlacedCells(cur.bits, n))[c])
  {
    var all := done + [cur];
    assert all[..|all| - 1] == done;
  }

  lemma AnyFlagSnoc(done: seq<Signal>, n: nat, c: nat, cur: Signal, lsb: bool)
    ensures AnyFlag(done + [cur], n, c, lsb) == (AnyFlag(done, n, c, lsb) || FlagCell(cur, n, c, lsb))
  {
    var all := done + [cur];
    assert all[..|all| - 1] == done;
  }

  /** Once the scan of `cur` has stopped, a cell is as the layout of `done` and `cur` has it. */
  lemma PartialEnd(done: seq<Signal>, n: nat, c: nat, cur: Signal)
    ensures Partial(done, n, c, cur, Placed(cur.bits, n)) == Layout(done + [cur], n, c)
  {
    var cells := PlacedCells(cur.bits, n);
    assert cells[..Placed(cur.bits, n)] == cells;
    SigsAtSnoc(done, n, c, cur);
    AnyFlagSnoc(done, n, c, cur, true);
    AnyFlagSnoc(done, n, c, cur, false);
    assert FlagSoFar(cur, n, c, Placed(cur.bits, n), true) == FlagCell(cur, n, c, true);
    assert FlagSoFar(cur, n, c, Placed(cur.bits, n), false) == FlagCell(cur, n, c, false);
  }

  lemma RepeatMembers(x: nat, m: nat)
    ensures forall i :: i in Repeat(x, m) <==> m > 0 && i == x
  {
    if m > 0 {
      assert Repeat(x, m)[0] == x;
    }
  }

  /** A signal is laid on a cell iff one of its scanned bits has that cell. */
  lemma {:induction false} SigsAtMembers(sigs: seq<Signal>, n: nat, c: nat)
    ensures forall i :: i in SigsAt(sigs, n, c) <==> 0 <= i < |sigs| && c in PlacedCells(sigs[i].bits, n)
  {
    if sigs != [] {
      var m := |sigs| - 1;
      SigsAtMembers(sigs[..m], n, c);
      assert forall i :: 0 <= i < m ==> sigs[..m][i] == sigs[i];
      RepeatMembers(m, multiset(PlacedCells(sigs[m].bits, n))[c]);
    }
  }

  /** The signals of a cell appear in message order. */
  lemma {:induction false} SigsAtOrdered(sigs: seq<Signal>, n: nat, c: nat)
    ensures forall a, b :: 0 <= a < b < |SigsAt(sigs, n, c)| ==> SigsAt(sigs, n, c)[a] <= SigsAt(sigs, n, c)[b]
    ensures forall a :: 0 <= a < |SigsAt(sigs, n, c)| ==> SigsAt(sigs, n, c)[a] < |sigs|
  {
    if sigs != [] {
      var m := |sigs| - 1;
      SigsAtOrdered(sigs[..m], n, c);
    }
  }

  /** A cell carries a flag iff some signal puts it there. */
  lemma {:induction false} AnyFlagMeaning(sigs: seq<Signal>, n: nat, c: nat, lsb: bool)
    ensures AnyFlag(sigs, n, c, lsb) <==> exists i :: 0 <= i < |sigs| && FlagCell(sigs[i], n, c, lsb)
  {
    if sigs != [] {
      var m := |sigs| - 1;
      AnyFlagMeaning(sigs[..m], n, c, lsb);
      assert forall i :: 0 <= i < m ==> sigs[..m][i] == sigs[i];
    }
  }

  /**
    After `setMessage`, a signal whose first bit is laid has the LSB flag there
    when little-endian and the MSB flag otherwise; when its last bit is laid
    too, that cell has the other flag.
  */
  lemma SignalEndsFlagged(sigs: seq<Signal>, n: nat, i: nat)
    requires i < |sigs| && Placed(sigs[i].bits, n) > 0
    ensures var first := CellOf(sigs[i].bits[0]) as nat;
      if sigs[i].isLittleEndian then Layout(sigs, n, first).isLsb else Layout(sigs, n, first).isMsb
    ensures Placed(sigs[i].bits, n) == |sigs[i].bits| ==>
      var last := CellOf(sigs[i].bits[|sigs[i].bits| - 1]) as nat;
      if sigs[i].isLittleEndian then Layout(sigs, n, last).isMsb else Layout(sigs, n, last).isLsb
  {
    var first := CellOf(sigs[i].bits[0]) as nat;
    var le := sigs[i].isLittleEndian;
    assert FlagCell(sigs[i], n, first, le);
    AnyFlagMeaning(sigs, n, first, le);
    if Placed(sigs[i].bits, n) == |sigs[i].bits| {
      var last := CellOf(sigs[i].bits[|sigs[i].bits| - 1]) as nat;
      assert FlagCell(sigs[i], n, last, !le);
      AnyFlagMeaning(sigs, n, last, !le);
    }
  }

  /** The value text of a cell of byte `b`: bit 7-j for a bit column, the two hex digits for column 8. */
  function CellText(b: Byte, j: nat): string
    requires j < ColumnCount
  {
    if j < 8 then [CabanaDetail.BitChar(CabanaDetail.Bit(b, 7 - j))]
    else [ToHex(b as nat / 16), ToHex(b as nat % 16)]
  }

  /**
    `toHex` of a nibble: its upper-case hex digit (the helper is declared
    elsewhere and is not part of this model; only the low four bits count).
  */
  function ToHex(v: nat): char {
    Text.HexUpper(v % 16)
  }

  /** The grid shows each byte exactly as the detail pane's table does. */
  lemma CellTextAsDetail(b: Byte, j: nat)
    requires j < ColumnCount
    ensures CellText(b, j) == CabanaDetail.RenderedText("", [b], 1, j)
  {
    assert j / CabanaDetail.Columns == 0 && j % CabanaDetail.Columns == j;
    if j < 8 {
      CabanaDetail.BitStringMeaning(b);
      assert CabanaDetail.BitString(b)[j] == CabanaDetail.BitChar(CabanaDetail.Bit(b, 7 - j));
    } else {
      assert CabanaDetail.RenderedText("", [b], 1, j) == CabanaDetail.Hex2(b);
    }
  }

  /** `flags`: every cell is enabled; all but the hex column can be selected. */
  function Selectable(col: int): (r: bool) {
    col != ColumnCount - 1
  }

  /** The grid `cells` after the first `k` bits of `cur`, signal number `i`, are laid on it. */
  function Laid(cells: seq<Item>, i: nat, cur: Signal, k: nat): (g: seq<Item>)
    requires k <= Placed(cur.bits, |cells|)
    ensures |g| == |cells|
  {
    if k == 0 then cells
    else
      var g := Laid(cells, i, cur, k - 1);
      var idx := CellOf(cur.bits[k - 1]);
      g[idx := Mark(g[idx], i, cur.isLittleEndian, k - 1 == 0, k - 1 == |cur.bits| - 1)]
  }

  /** Laying bit `k` marks its cell, which lies inside the grid. */
  lemma LaidStep(cells: seq<Item>, i: nat, cur: Signal, k: nat)
    requires k < Placed(cur.bits, |cells|)
    ensures 0 <= CellOf(cur.bits[k]) < |cells|
    ensures var g := Laid(cells, i, cur, k);
      var idx := CellOf(cur.bits[k]);
      Laid(cells, i, cur, k + 1) == g[idx := Mark(g[idx], i, cur.isLittleEndian, k == 0, k == |cur.bits| - 1)]
  {
  }

  /** Laid on the layout of `done`, the first `k` bits of `cur` give every cell its partial state. */
  lemma {:induction false} LaidCell(cells: seq<Item>, done: seq<Signal>, cur: Signal, k: nat, c: nat)
    requires k <= Placed(cur.bits, |cells|) && c < |cells| && cells[c] == Layout(done, |cells|, c)
    ensures Laid(cells, |done|, cur, k)[c] == Partial(done, |cells|, c, cur, k)
  {
    if k == 0 {
      PartialStart(done, |cells|, c, cur);
    } else {
      LaidCell(cells, done, cur, k - 1, c);
      PartialStep(done, |cells|, c, cur, k - 1);
    }
  }

  /** Once the scan of `cur` stops, every cell is as the layout of `done + [cur]` has it. */
  lemma LaidEnd(cells: seq<Item>, done: seq<Signal>, cur: Signal, c: nat)
    requires c < |cells| && cells[c] == Layout(done, |cells|, c)
    ensures Laid(cells, |done|, cur, Placed(cur.bits, |cells|))[c] == Layout(done + [cur], |cells|, c)
  {
    LaidCell(cells, done, cur, Placed(cur.bits, |cells|), c);
    PartialEnd(done, |cells|, c, cur);
  }

  /** The loop of `setMessage` for one signal: its bits in range order, up to the first one outside the grid. */
  method LayLoop(cells: seq<Item>, i: nat, cur: Signal) returns (items: seq<Item>)
    ensures items == Laid(cells, i, cur, Placed(cur.bits, |cells|))
  {
    var n := |cells|;
    items := cells;
    var k := 0;
    while k < |cur.bits| && 0 <= CellOf(cur.bits[k]) < n
      invariant 0 <= k <= Placed(cur.bits, n)
      invariant items == Laid(cells, i, cur, k)
    {
      PlacedStop(cur.bits, n, k);
      LaidStep(cells, i, cur, k);
      var idx := CellOf(cur.bits[k]);
      items := items[idx := Mark(items[idx], i, cur.isLittleEndian, k == 0, k == |cur.bits| - 1)];
      k := k + 1;
    }
    PlacedStop(cur.bits, n, k);
  }

  /** Laying one signal on the cells as values: see `BinaryViewModel.LaySignal`. */
  method LayBits(cells: seq<Item>, done: seq<Signal>, cur: Signal) returns (items: seq<Item>)
    requires forall c :: 0 <= c < |cells| ==> cells[c] == Layout(done, |cells|, c)
    ensures |items| == |cells|
    ensures forall c :: 0 <= c < |items| ==> items[c] == Layout(done + [cur], |items|, c)
  {
    items := LayLoop(cells, |done|, cur);
    forall c | 0 <= c < |items| ensures items[c] == Layout(done + [cur], |items|, c) {
      LaidEnd(cells, done, cur, c);
    }
  }

  /** The byte-grid model (`BinaryViewModel`). */
  class BinaryViewModel {
    var items: seq<Item>
    var rowCount: nat
    var dbcMsg: Option<Msg>

    ghost predicate Valid()
      reads this
    {
      |items| == rowCount * ColumnCount
    }

    constructor()
      ensures Valid() && items == [] && rowCount == 0 && dbcMsg == None
    {
      items := [];
      rowCount := 0;
      dbcMsg := None;
    }

    /**
      `setMessage`: a fresh grid of as many rows as the DBC message has bytes
      (else as the last data has), with the message's signals laid out.
    */
    method SetMessage(msg: Option<Msg>, lastLen: nat)
      requires msg.Some? ==> forall sig :: sig in msg.value.sigs ==> Shaped(sig)
      modifies this
      ensures Valid() && dbcMsg == msg
      ensures rowCount == (if msg.Some? then msg.value.size else lastLen)
      ensures forall c :: 0 <= c < |items| ==> items[c] == Layout(if msg.Some? then msg.value.sigs else [], |items|, c)
    {
      dbcMsg := msg;
      if msg.Some? {
        rowCount := msg.value.size;
        items := seq(rowCount * ColumnCount, _ => EmptyItem);
        var sigs := msg.value.sigs;
        var n := |items|;
        var i := 0;
        while i < |sigs|
          invariant 0 <= i <= |sigs| && |items| == n
          invariant rowCount == msg.value.size && dbcMsg == msg
          invariant forall c :: 0 <= c < n ==> items[c] == Layout(sigs[..i], n, c)
        {
          LaySignal(sigs[..i], sigs[i]);
          assert sigs[..i] + [sigs[i]] == sigs[..i + 1];
          i := i + 1;
        }
        assert sigs[..i] == sigs;
      } else {
        rowCount := lastLen;
        items := seq(rowCount * ColumnCount, _ => EmptyItem);
      }
    }

    /** Lays the bits of `cur` onto the grid, in range order, up to the first one outside it. */
    method LaySignal(done: seq<Signal>, cur: Signal)
      requires forall c :: 0 <= c < |items| ==> items[c] == Layout(done, |items|, c)
      modifies this`items
      ensures |items| == |old(items)|
      ensures forall c :: 0 <= c < |items| ==> items[c] == Layout(done + [cur], |items|, c)
    {
      items := LayBits(items, done, cur);
    }

    /**
      `updateState`: without a DBC message, data of a new length resets the
      grid to that many rows. Then each byte's cells show its bits and hex
      digits, for the rows both the data and the grid have. `changed` lists, in
      order, the cells that are new or whose text changed.
    */
    method UpdateState(binary: seq<Byte>) returns (changed: seq<nat>)
      requires Valid()
      modifies this`items, this`rowCount
      ensures Valid()
      ensures var reset := dbcMsg.None? && |binary| != old(rowCount);
        rowCount == (if reset then |binary| else old(rowCount)) &&
        forall c :: 0 <= c < |items| ==>
          var base := if reset then EmptyItem else old(items)[c];
          items[c] == base.(val := if c / ColumnCount < |binary| then CellText(binary[c / ColumnCount], c % ColumnCount) else base.val)
      ensures forall x :: x in changed <==> 0 <= x < |items| && (x >= |old(items)| || old(items)[x].val != items[x].val)
      ensures forall a, b :: 0 <= a < b < |changed| ==> changed[a] < changed[b]
    {
      var prev := items;
      if dbcMsg.None? && |binary| != rowCount {
        rowCount := |binary|;
        items := seq(rowCount * ColumnCount, _ => EmptyItem);
      }
      ghost var base := items;
      var i := 0;
      while i < |binary| && i < rowCount
        invariant 0 <= i <= rowCount && i <= |binary| && Valid() && |items| == |base|
        invariant forall c :: 0 <= c < |items| ==>
          items[c] == base[c].(val := if c / ColumnCount < i then CellText(binary[c / ColumnCount], c % ColumnCount) else base[c].val)
      {
        RenderRow(i, binary[i]);
        i := i + 1;
      }
      forall c | 0 <= c < |items| ensures c / ColumnCount < rowCount {
        assert c < rowCount * ColumnCount;
      }
      changed := ChangedCells(prev, items);
    }

    /** Writes the bit and hex cells of row `i` for byte `b`. */
    method RenderRow(i: nat, b: Byte)
      requires Valid() && i < rowCount
      modifies this`items
      ensures Valid()
      ensures forall c :: 0 <= c < |items| ==>
        items[c] == old(items)[c].(val := if c / ColumnCount == i then CellText(b, c % ColumnCount) else old(items)[c].val)
    {
      var j := 0;
      while j < ColumnCount - 1
        invariant 0 <= j <= 8 && Valid() && |items| == |old(items)|
        invariant forall c :: 0 <= c < |items| ==>
          items[c] == old(items)[c].(val := if c / ColumnCount == i && c % ColumnCount < j then CellText(b, c % ColumnCount) else old(items)[c].val)
      {
        var idx := CabanaDetail.CellAt(i, j);
        assert idx < |items| by { assert idx <= (rowCount - 1) * ColumnCount + 8; }
        assert idx / ColumnCount == i && idx % ColumnCount == j;
        items := items[idx := items[idx].(val := [CabanaDetail.BitChar(CabanaDetail.Bit(b, 7 - j))])];
        j := j + 1;
      }
      var idx := CabanaDetail.CellAt(i, 8);
      assert idx < |items| by { assert idx <= (rowCount - 1) * ColumnCount + 8; }
      assert idx / ColumnCount == i && idx % ColumnCount == 8;
      items := items[idx := items[idx].(val := [ToHex(b as nat / 16), ToHex(b as nat % 16)])];
    }
  }

  /** The cells `updateState` reports changed, in order: those new to `now` or whose text differs from `prev`. */
  method ChangedCells(prev: seq<Item>, now: seq<Item>) returns (changed: seq<nat>)
    ensures forall x :: x in changed <==> 0 <= x < |now| && (x >= |prev| || prev[x].val != now[x].val)
    ensures forall a, b :: 0 <= a < b < |changed| ==> changed[a] < changed[b]
  {
    changed := [];
    var x := 0;
    while x < |now|
      invariant 0 <= x <= |now|
      invariant forall y :: y in changed <==> 0 <= y < x && (y >= |prev| || prev[y].val != now[y].val)
      invariant forall a, b :: 0 <= a < b < |changed| ==> changed[a] < changed[b]
      invariant forall a :: 0 <= a < |changed| ==> changed[a] < x
    {
      if x >= |prev| || prev[x].val != now[x].val {
        changed := changed + [x];
      }
      x := x + 1;
    }
  }

  /**
    `getOverlappingSignals`: every signal laid on a bit cell together with
    at least one other entry.
  */
  method GetOverlappingSignals(items: seq<Item>, rowCount: nat) returns (overlapping: set<nat>)
    requires |items| == rowCount * ColumnCount
    ensures forall s :: s in overlapping <==>
      exists c :: 0 <= c < |items| && c % ColumnCount < 8 && |items[c].sigs| > 1 && s in items[c].sigs
  {
    overlapping := {};
    var i := 0;
    while i < rowCount
      invariant 0 <= i <= rowCount
      invariant forall s :: s in overlapping <==>
        exists c :: 0 <= c < i * ColumnCount && c % ColumnCount < 8 && |items[c].sigs| > 1 && s in items[c].sigs
    {
      var j := 0;
      while j < ColumnCount - 1
        invariant 0 <= j <= 8
        invariant forall s :: s in overlapping <==>
          exists c :: 0 <= c < i * ColumnCount + j && c % ColumnCount < 8 && |items[c].sigs| > 1 && s in items[c].sigs
      {
        var idx := CabanaDetail.CellAt(i, j);
        assert idx < |items| by { assert idx <= (rowCount - 1) * ColumnCount + 8; }
        if |items[idx].sigs| > 1 {
          overlapping := overlapping + set s | s in items[idx].sigs;
        }
        j := j + 1;
      }
      assert forall c :: i * ColumnCount + 8 <= c < (i + 1) * ColumnCount ==> c % ColumnCount == 8;
      i := i + 1;
    }
  }

  // ---------------------------------------------------------------------------
  // Selection and resizing in the view

  /** QModelIndex order on one model: by row, then by column. */
  predicate IndexLess(a: Index, b: Index) {
    a.row < b.row || (a.row == b.row && a.col < b.col)
  }

  /** One merged range of a selection: columns `left`..`right` of one row. */
  datatype Range = Range(row: int, left: int, right: int)

  /**
    `setSelection`: the rectangle's corner cells `tl` and `br` (None when the
    point is outside the grid) are stretched to the anchor cell, then every
    row from the top one to the bottom one is selected, from the left corner's
    column on the first row and up to the right corner's column on the last.
  */
  function SetSelection(tl: Option<Index>, br: Option<Index>, anchor: Index): (ranges: Option<seq<Range>>)
    ensures tl.None? || br.None? <==> ranges.None?
  {
    if tl.None? || br.None? then None
    else
      var lo := if !IndexLess(tl.value, anchor) && IndexLess(anchor, br.value) then anchor else tl.value;
      var hi := if IndexLess(tl.value, anchor) then anchor else br.value;
      Some(Rows(lo, hi))
  }

  function Rows(lo: Index, hi: Index): (ranges: seq<Range>)
    ensures |ranges| == (if hi.row >= lo.row then hi.row - lo.row + 1 else 0)
    ensures forall k :: 0 <= k < |ranges| ==> ranges[k].row == lo.row + k
  {
    var count := if hi.row >= lo.row then hi.row - lo.row + 1 else 0;
    seq(count, k requires 0 <= k < count =>
      Range(lo.row + k, if k == 0 then lo.col else 0, if lo.row + k == hi.row then hi.col else 7))
  }

  predicate InRanges(ranges: seq<Range>, row: int, col: int) {
    exists k :: 0 <= k < |ranges| && ranges[k].row == row && ranges[k].left <= col <= ranges[k].right
  }

  /**
    The cells of the selection that can be selected are exactly the bit cells
    from `lo` to `hi` in reading order (eight bits per row; a corner on the hex
    column stands for the end of its row).
  */
  lemma RowsSelectBitsBetween(lo: Index, hi: Index, row: int, col: int)
    requires 0 <= lo.col <= 8 && 0 <= hi.col <= 8 && lo.row <= hi.row
    ensures InRanges(Rows(lo, hi), row, col) && Selectable(col) && 0 <= col <= 8 <==>
      0 <= col < 8 && lo.row * 8 + lo.col <= row * 8 + col <= hi.row * 8 + (if hi.col < 8 then hi.col else 7)
  {
    var ranges := Rows(lo, hi);
    if 0 <= col < 8 && lo.row * 8 + lo.col <= row * 8 + col <= hi.row * 8 + (if hi.col < 8 then hi.col else 7) {
      assert lo.row <= row <= hi.row;
      var k := row - lo.row;
      assert ranges[k].row == row;
    }
  }

  /** The bit cell (`row`, `col`) lies from `lo` to `hi` in reading order; `hi` on the hex column stands for the end of its row. */
  predicate BitBetween(lo: Index, hi: Index, row: int, col: int) {
    lo.row * 8 + lo.col <= row * 8 + col <= hi.row * 8 + (if hi.col < 8 then hi.col else 7)
  }

  /**
    Which cells `setSelection` selects. With both corners inside the grid the
    rectangle is stretched to the anchor: when `tl` comes before the anchor
    the bits from `tl` to the anchor are selected, otherwise when the anchor
    comes before `br` the bits from the anchor to `br`, and otherwise the bits
    from `tl` to `br`. A press outside the grid leaves Qt's invalid index
    (row and column -1) as the anchor.
  */
  lemma SetSelectionSelects(tl: Index, br: Index, anchor: Index, row: nat, col: int)
    requires 0 <= tl.row && 0 <= tl.col <= 8 && 0 <= br.row && 0 <= br.col <= 8
    requires anchor == Index(-1, -1) || (0 <= anchor.row && 0 <= anchor.col <= 8)
    ensures SetSelection(Some(tl), Some(br), anchor).Some?
    ensures InRanges(SetSelection(Some(tl), Some(br), anchor).value, row, col) && Selectable(col) && 0 <= col <= 8 <==>
      0 <= col < 8 &&
      if IndexLess(tl, anchor) then BitBetween(tl, anchor, row, col)
      else if IndexLess(anchor, br) then BitBetween(anchor, br, row, col)
      else BitBetween(tl, br, row, col)
  {
    var lo := if !IndexLess(tl, anchor) && IndexLess(anchor, br) then anchor else tl;
    var hi := if IndexLess(tl, anchor) then anchor else br;
    var ranges := Rows(lo, hi);
    assert SetSelection(Some(tl), Some(br), anchor).value == ranges;
    if lo == Index(-1, -1) {
      if 0 <= col < 8 && BitBetween(lo, hi, row, col) {
        assert row <= hi.row;
        assert ranges[row + 1].row == row;
      }
    } else if lo.row <= hi.row {
      RowsSelectBitsBetween(lo, hi, row, col);
    }
  }

  /** What a mouse release asks for: resizing a signal, or adding one over the selection. */
  datatype Release =
    | Resize(sig: nat, startBit: int, size: int)
    | AddSignal(from: int, size: int)

  /**
    `getResizingSignal`: among the signals of the anchor cell, the first whose
    range starts or ends at the anchor's bit (row*8+col; little-endian ranges
    converted by `bigEndianBitIndex`).
  */
  function ResizingSignal(anchor: Option<Index>, items: seq<Item>, sigs: seq<Signal>): (r: Option<nat>)
    requires forall c, k :: 0 <= c < |items| && 0 <= k < |items[c].sigs| ==> items[c].sigs[k] < |sigs|
    ensures r.Some? ==>
      (anchor.Some? && r.value < |sigs| && AnchorCell(anchor.value, items).Some? &&
       r.value in items[AnchorCell(anchor.value, items).value].sigs && EndsAt(sigs[r.value], Pos(anchor.value)))
  {
    if anchor.None? || AnchorCell(anchor.value, items).None? then None
    else FirstEndingAt(items[AnchorCell(anchor.value, items).value].sigs, sigs, Pos(anchor.value))
  }

  function Pos(index: Index): int {
    index.row * 8 + index.col
  }

  /** The item behind a model index, when the grid has it. */
  function AnchorCell(index: Index, items: seq<Item>): (c: Option<nat>)
    ensures c.Some? ==> c.value < |items|
  {
    var idx := index.row * ColumnCount + index.col;
    if 0 <= index.col < ColumnCount && 0 <= idx < |items| then Some(idx) else None
  }

  /** A signal's range, as the view numbers it, starts or ends at `pos`. */
  predicate EndsAt(sig: Signal, pos: int) {
    var from := if sig.isLittleEndian && |sig.bits| > 0 then sig.bits[0] else sig.from;
    var to := if sig.isLittleEndian && |sig.bits| > 0 then sig.bits[|sig.bits| - 1] else sig.to;
    pos == from || pos == to
  }

  function FirstEndingAt(candidates: seq<nat>, sigs: seq<Signal>, pos: int): (r: Option<nat>)
    requires forall k :: 0 <= k < |candidates| ==> candidates[k] < |sigs|
    ensures r.Some? ==> r.value in candidates && r.value < |sigs| && EndsAt(sigs[r.value], pos)
    ensures r.None? <==> forall k :: 0 <= k < |candidates| ==> !EndsAt(sigs[candidates[k]], pos)
    ensures r.Some? ==>
      exists k :: 0 <= k < |candidates| && candidates[k] == r.value &&
        (forall m :: 0 <= m < k ==> !EndsAt(sigs[candidates[m]], pos))
  {
    if candidates == [] then None
    else if EndsAt(sigs[candidates[0]], pos) then Some(candidates[0])
    else
      var r := FirstEndingAt(candidates[1..], sigs, pos);
      assert forall k :: 1 <= k < |candidates| ==> candidates[k] == candidates[1..][k - 1];
      r
  }

  /**
    `mouseReleaseEvent` once something is selected. Dragging an end of a
    signal moves that end to the released bit (a release on the hex column
    counts as bit column 7), never below one bit; otherwise the selection
    from its first to its last cell becomes a new signal.
  */
  function ReleaseAction(selected: seq<Index>, resizing: Option<nat>, sigs: seq<Signal>, release: Index, anchor: Index): (r: Release)
    requires |selected| > 0
    requires resizing.Some? ==> resizing.value < |sigs|
    ensures r.Resize? <==> resizing.Some?
    ensures r.Resize? ==> r.size >= 1 && r.sig == resizing.value
    ensures r.AddSignal? ==> r.from == Pos(selected[0]) && r.from + r.size - 1 == Pos(selected[|selected| - 1])
  {
    if resizing.Some? then
      var sig := sigs[resizing.value];
      var releaseAt := if release.col == 8 then Index(release.row, 7) else release;
      var releasePos := GetBitIndex(releaseAt, sig.isLittleEndian);
      var anchorPos := GetBitIndex(anchor, sig.isLittleEndian);
      if anchorPos == sig.from then
        Resize(resizing.value, releasePos, Max(1, sig.to - releasePos + 1))
      else
        Resize(resizing.value, sig.from, Max(1, releasePos - sig.from + 1))
    else
      var from := Pos(selected[0]);
      var to := Pos(selected[|selected| - 1]);
      AddSignal(from, to - from + 1)
  }

  function Max(a: int, b: int): int {
    if a >= b then a else b
  }

  /**
    A resize keeps the end of the signal that was not dragged: grabbed at its
    start, the signal still ends at `to` while the release is not past it;
    grabbed elsewhere, it still starts at `from` and ends at the released bit
    while that is not before `from`.
  */
  lemma ResizeKeepsOtherEnd(selected: seq<Index>, i: nat, sigs: seq<Signal>, release: Index, anchor: Index)
    requires |selected| > 0 && i < |sigs| && 0 <= release.col <= 8
    ensures var r := ReleaseAction(selected, Some(i), sigs, release, anchor);
      var sig := sigs[i];
      var releasePos := GetBitIndex(if release.col == 8 then Index(release.row, 7) else release, sig.isLittleEndian);
      if GetBitIndex(anchor, sig.isLittleEndian) == sig.from then
        r.startBit == releasePos && (releasePos <= sig.to ==> r.startBit + r.size - 1 == sig.to)
      else
        r.startBit == sig.from && (releasePos >= sig.from ==> r.startBit + r.size - 1 == releasePos)
  {
  }

  /** A selection of consecutive bit cells in reading order becomes a signal of exactly that many bits. */
  lemma AddSignalSpansSelection(selected: seq<Index>)
    requires |selected| > 0
    requires forall k :: 0 <= k < |selected| ==> Pos(selected[k]) == Pos(selected[0]) + k
    ensures ReleaseAction(selected, None, [], Index(0, 0), Index(0, 0)).size == |selected|
  {
  }

  /** The view's press/release state. */
  class BinaryView {
    var anchor: Option<Index>

    constructor()
      ensures anchor == None
    {
      anchor := None;
    }

    /** `mousePressEvent`: the pressed cell, if any, becomes the anchor. */
    method MousePress(pressed: Option<Index>)
      modifies this
      ensures anchor == pressed
    {
      anchor := pressed;
    }

    /**
      `mouseReleaseEvent`: the action for a non-empty selection (None for an
      empty one), with the anchor cleared afterwards.
    */
    method MouseRelease(selected: seq<Index>, items: seq<Item>, sigs: seq<Signal>, release: Index)
      returns (action: Option<Release>)
      requires forall c, k :: 0 <= c < |items| && 0 <= k < |items[c].sigs| ==> items[c].sigs[k] < |sigs|
      modifies this
      ensures anchor == None
      ensures action.None? <==> selected == []
      ensures action.Some? ==> old(anchor).Some? || action.value.AddSignal?
      ensures action.Some? && old(anchor).Some? ==>
        action.value == ReleaseAction(selected, ResizingSignal(old(anchor), items, sigs), sigs, release, old(anchor).value)
      ensures action.Some? && old(anchor).None? ==>
        action.value == ReleaseAction(selected, None, sigs, release, Index(-1, -1))
    {
      action := None;
      if selected != [] {
        var resizing := ResizingSignal(anchor, items, sigs);
        var at := if anchor.Some? then anchor.value else Index(-1, -1);
        action := Some(ReleaseAction(selected, resizing, sigs, release, at));
      }
      anchor := None;
    }
  }
}
