/**
  Cabana's message list: the table of received CAN messages, filtered by the
  text typed into the column headers, sorted by one column, and with the
  recently changed bytes of every listed message remembered as "suppressed".
*/
module CabanaMessages {
  import opened Common
  import Text
  import Util

  /** The table's columns, in header order; the last one is not sortable. */
  const NAME := 0
  const SOURCE := 1
  const ADDRESS := 2
  const FREQ := 3
  const COUNT := 4
  const DATA := 5
  const ColumnCount := 6

  /** A CAN message is identified by the bus it came from and its address. */
  datatype MessageId = MessageId(source: int, address: int)

  /** Message ids order by source, then by address. */
  predicate IdLess(a: MessageId, b: MessageId) {
    a.source < b.source || (a.source == b.source && a.address < b.address)
  }

  /** The latest state of one message: how often it was seen, its rate, its bytes and when each byte last changed. */
  datatype CanData = CanData(count: int, freq: real, dat: seq<Byte>, lastChangeT: seq<real>)

  /**
    One entry of the received-message table together with what the DBC file says
    about its id: the display name and the names of its signals (none when the DBC
    does not know the message).
  */
  datatype Entry = Entry(id: MessageId, data: CanData, name: string, sigNames: seq<string>)

  /** The ids of the entries of a hash table are distinct. */
  predicate DistinctIds(s: seq<Entry>) {
    forall i, j :: 0 <= i < j < |s| ==> s[i].id != s[j].id
  }

  function Ids(s: seq<Entry>): (r: seq<MessageId>)
    ensures |r| == |s| && forall i :: 0 <= i < |s| ==> r[i] == s[i].id
  {
    seq(|s|, i requires 0 <= i < |s| => s[i].id)
  }

  // ---------------------------------------------------------------------------
  // Filtering

  /** `QByteArray::toHex`: two lower-case digits per byte. */
  function HexOf(dat: seq<Byte>): (r: string)
    ensures |r| == 2 * |dat|
  {
    if dat == [] then [] else Util.ByteHex(dat[0]) + HexOf(dat[1..])
  }

  lemma {:induction false} HexOfIsHexdump(dat: seq<Byte>)
    ensures Util.IsHexdumpOf(HexOf(dat), dat)
  {
    if dat != [] {
      HexOfIsHexdump(dat[1..]);
      var r := HexOf(dat);
      assert r == Util.ByteHex(dat[0]) + HexOf(dat[1..]);
      forall i | 0 <= i < |dat| ensures r[2 * i..2 * i + 2] == Util.ByteHex(dat[i]) {
        if i > 0 {
          assert r[2 * i..2 * i + 2] == HexOf(dat[1..])[2 * (i - 1)..2 * (i - 1) + 2];
        }
      }
    }
  }

  /** The NAME filter: the message name, or the name of one of its signals, contains the text. */
  predicate NameMatches(e: Entry, txt: string) {
    Text.ContainsIgnoringCase(e.name, txt) ||
    exists s :: s in e.sigNames && Text.ContainsIgnoringCase(s, txt)
  }

  /** What the filter text of one column demands of an entry; FREQ and COUNT demand nothing. */
  predicate ColumnMatches(column: int, txt: string, e: Entry) {
    if column == NAME then NameMatches(e, txt)
    else if column == SOURCE then Text.QtToInt(txt, 10) == Some(e.id.source)
    else if column == ADDRESS then Text.QtToInt(txt, 16) == Some(e.id.address)
    else if column == DATA then Text.ContainsIgnoringCase(HexOf(e.data.dat), txt)
    else true
  }

  /** An entry passes the filters when it passes the filter of every column that has one. */
  predicate Matches(e: Entry, f: map<int, string>) {
    forall column :: NAME <= column <= DATA && column in f ==> ColumnMatches(column, f[column], e)
  }

  /** The signal-name scan of the NAME filter, stopping at the first match. */
  method SignalNameMatch(sigNames: seq<string>, txt: string) returns (found: bool)
    ensures found <==> exists s :: s in sigNames && Text.ContainsIgnoringCase(s, txt)
  {
    found := false;
    var k := 0;
    while k < |sigNames|
      invariant 0 <= k <= |sigNames|
      invariant !found
      invariant forall i :: 0 <= i < k ==> !Text.ContainsIgnoringCase(sigNames[i], txt)
    {
      if Text.ContainsIgnoringCase(sigNames[k], txt) {
        found := true;
        return;
      }
      k := k + 1;
    }
  }

  /** The filter predicate of `fetchData`: one pass over the columns that have a filter. */
  method Contains(e: Entry, f: map<int, string>) returns (matched: bool)
    ensures matched <==> Matches(e, f)
  {
    matched := true;
    var column := NAME;
    while column <= DATA
      invariant NAME <= column <= DATA + 1
      invariant matched <==> forall c :: NAME <= c < column && c in f ==> ColumnMatches(c, f[c], e)
    {
      if column in f {
        var txt := f[column];
        if column == NAME {
          var nameMatch := Text.ContainsIgnoringCase(e.name, txt);
          var sigMatch := SignalNameMatch(e.sigNames, txt);
          if sigMatch {
            nameMatch := true;
          }
          if !nameMatch {
            matched := false;
          }
        } else if column == SOURCE {
          var source := Text.QtToInt(txt, 10);
          if source != Some(e.id.source) {
            matched := false;
          }
        } else if column == ADDRESS {
          var address := Text.QtToInt(txt, 16);
          if address != Some(e.id.address) {
            matched := false;
          }
        } else if column == DATA {
          if !Text.ContainsIgnoringCase(HexOf(e.data.dat), txt) {
            matched := false;
          }
        }
      }
      column := column + 1;
    }
  }

  /** The entries that pass the filters, in table order. */
  function Filtered(s: seq<Entry>, f: map<int, string>): (r: seq<Entry>)
    ensures |r| <= |s|
  {
    if s == [] then []
    else
      var n := |s| - 1;
      Filtered(s[..n], f) + (if Matches(s[n], f) then [s[n]] else [])
  }

  lemma {:induction false} FilteredMeaning(s: seq<Entry>, f: map<int, string>)
    ensures forall x :: x in Filtered(s, f) <==> x in s && Matches(x, f)
  {
    if s != [] {
      var n := |s| - 1;
      FilteredMeaning(s[..n], f);
      assert s == s[..n] + [s[n]];
    }
  }

  /** Filtering keeps the ids distinct. */
  lemma {:induction false} FilteredDistinct(s: seq<Entry>, f: map<int, string>)
    requires DistinctIds(s)
    ensures DistinctIds(Filtered(s, f))
  {
    if s != [] {
      var n := |s| - 1;
      assert DistinctIds(s[..n]);
      FilteredDistinct(s[..n], f);
      FilteredMeaning(s[..n], f);
      var p := Filtered(s[..n], f);
      forall y | y in p ensures y.id != s[n].id {
        var a :| 0 <= a < n && s[a] == y;
      }
    }
  }

  // ---------------------------------------------------------------------------
  // Sorting

  predicate Sortable(column: int) { NAME <= column <= COUNT }

  /** The key a column sorts by: text, a whole number or a rate. */
  datatype Key = Str(s: string) | Num(n: int) | Rate(r: real)

  function KeyOf(column: int, e: Entry): Key
    requires Sortable(column)
  {
    if column == NAME then Str(e.name)
    else if column == SOURCE then Num(e.id.source)
    else if column == ADDRESS then Num(e.id.address)
    else if column == FREQ then Rate(e.data.freq)
    else Num(e.data.count)
  }

  predicate KeyLess(a: Key, b: Key) {
    match (a, b)
    case (Str(x), Str(y)) => Text.LexLess(x, y)
    case (Num(x), Num(y)) => x < y
    case (Rate(x), Rate(y)) => x < y
    case _ => false
  }

  /** `std::pair{key, id} <`: by key, ties broken by id. */
  predicate PairLess(column: int, a: Entry, b: Entry)
    requires Sortable(column)
  {
    KeyLess(KeyOf(column, a), KeyOf(column, b)) ||
    (KeyOf(column, a) == KeyOf(column, b) && IdLess(a.id, b.id))
  }

  /** The comparator handed to `std::sort`: `<` on pairs when ascending, `>` when descending. */
  predicate Before(column: int, ascending: bool, a: Entry, b: Entry)
    requires Sortable(column)
  {
    if ascending then PairLess(column, a, b) else PairLess(column, b, a)
  }

  lemma KeyLessIrreflexive(k: Key)
    ensures !KeyLess(k, k)
  {
    if k.Str? {
      Text.LexLessIrreflexive(k.s);
    }
  }

  lemma KeyLessTransitive(a: Key, b: Key, c: Key)
    requires KeyLess(a, b) && KeyLess(b, c)
    ensures KeyLess(a, c)
  {
    if a.Str? {
      Text.LexLessTransitive(a.s, b.s, c.s);
    }
  }

  lemma KeyLessTotal(column: int, a: Entry, b: Entry)
    requires Sortable(column) && KeyOf(column, a) != KeyOf(column, b)
    ensures KeyLess(KeyOf(column, a), KeyOf(column, b)) || KeyLess(KeyOf(column, b), KeyOf(column, a))
  {
    if column == NAME {
      Text.LexLessTotal(a.name, b.name);
    }
  }

  lemma BeforeIrreflexive(column: int, ascending: bool, a: Entry)
    requires Sortable(column)
    ensures !Before(column, ascending, a, a)
  {
    KeyLessIrreflexive(KeyOf(column, a));
  }

  lemma PairLessTransitive(column: int, a: Entry, b: Entry, c: Entry)
    requires Sortable(column)
    requires PairLess(column, a, b) && PairLess(column, b, c)
    ensures PairLess(column, a, c)
  {
    var ka, kb, kc := KeyOf(column, a), KeyOf(column, b), KeyOf(column, c);
    if KeyLess(ka, kb) && KeyLess(kb, kc) {
      KeyLessTransitive(ka, kb, kc);
    } else if KeyLess(ka, kb) {
      assert kb == kc;
    } else if KeyLess(kb, kc) {
      assert ka == kb;
    } else {
      assert ka == kb && kb == kc;
    }
  }

  lemma BeforeTransitive(column: int, ascending: bool, a: Entry, b: Entry, c: Entry)
    requires Sortable(column)
    requires Before(column, ascending, a, b) && Before(column, ascending, b, c)
    ensures Before(column, ascending, a, c)
  {
    if ascending {
      PairLessTransitive(column, a, b, c);
    } else {
      PairLessTransitive(column, c, b, a);
    }
  }

  /** Entries with different ids are always ordered one way or the other. */
  lemma BeforeTotal(column: int, ascending: bool, a: Entry, b: Entry)
    requires Sortable(column) && a.id != b.id
    ensures Before(column, ascending, a, b) || Before(column, ascending, b, a)
  {
    if KeyOf(column, a) != KeyOf(column, b) {
      KeyLessTotal(column, a, b);
    }
  }

  lemma BeforeAsymmetric(column: int, ascending: bool, a: Entry, b: Entry)
    requires Sortable(column) && Before(column, ascending, a, b)
    ensures !Before(column, ascending, b, a)
  {
    if Before(column, ascending, b, a) {
      BeforeTransitive(column, ascending, a, b, a);
      BeforeIrreflexive(column, ascending, a);
    }
  }

  /** Every entry comes strictly before every later one under the comparator. */
  predicate Ordered(s: seq<Entry>, column: int, ascending: bool)
    requires Sortable(column)
  {
    forall i, j :: 0 <= i < j < |s| ==> Before(column, ascending, s[i], s[j])
  }

  function Insert(x: Entry, s: seq<Entry>, column: int, ascending: bool): (r: seq<Entry>)
    requires Sortable(column)
    ensures multiset(r) == multiset(s) + multiset{x}
  {
    if s == [] then [x]
    else if Before(column, ascending, x, s[0]) then [x] + s
    else
      assert s == [s[0]] + s[1..];
      [s[0]] + Insert(x, s[1..], column, ascending)
  }

  lemma {:induction false} InsertOrdered(x: Entry, s: seq<Entry>, column: int, ascending: bool)
    requires Sortable(column) && Ordered(s, column, ascending)
    requires forall y :: y in s ==> y.id != x.id
    ensures Ordered(Insert(x, s, column, ascending), column, ascending)
  {
    if s == [] {
    } else if Before(column, ascending, x, s[0]) {
      forall y | y in s ensures Before(column, ascending, x, y) {
        var j :| 0 <= j < |s| && s[j] == y;
        if j > 0 {
          BeforeTransitive(column, ascending, x, s[0], s[j]);
        }
      }
      ConsOrdered(x, s, column, ascending);
    } else {
      BeforeTotal(column, ascending, x, s[0]);
      assert Ordered(s[1..], column, ascending);
      InsertOrdered(x, s[1..], column, ascending);
      var t := Insert(x, s[1..], column, ascending);
      forall y | y in t ensures Before(column, ascending, s[0], y) {
        assert y in multiset(t);
        if y != x {
          var j :| 0 <= j < |s[1..]| && s[1..][j] == y;
          assert s[j + 1] == y;
        }
      }
      ConsOrdered(s[0], t, column, ascending);
    }
  }

  /** An entry before every entry of an ordered list stays ordered at its head. */
  lemma ConsOrdered(a: Entry, t: seq<Entry>, column: int, ascending: bool)
    requires Sortable(column) && Ordered(t, column, ascending)
    requires forall y :: y in t ==> Before(column, ascending, a, y)
    ensures Ordered([a] + t, column, ascending)
  {
    var l := [a] + t;
    forall i, j | 0 <= i < j < |l| ensures Before(column, ascending, l[i], l[j]) {
      assert l[j] == t[j - 1];
      if i > 0 {
        assert l[i] == t[i - 1];
      }
    }
  }

  /** The sorted list as a function: insertion of each entry in turn. */
  function SortEntries(s: seq<Entry>, column: int, ascending: bool): (r: seq<Entry>)
    requires Sortable(column)
    ensures multiset(r) == multiset(s)
  {
    if s == [] then []
    else
      var n := |s| - 1;
      assert s == s[..n] + [s[n]];
      Insert(s[n], SortEntries(s[..n], column, ascending), column, ascending)
  }

  /** An entry is listed at most once when it is followed by distinct ids. */
  lemma MemberOfPrefix(s: seq<Entry>, n: nat, y: Entry)
    requires n <= |s| && y in multiset(s[..n])
    ensures exists k :: 0 <= k < n && s[k] == y
  {
    assert y in s[..n];
  }

  lemma {:induction false} SortEntriesOrdered(s: seq<Entry>, column: int, ascending: bool)
    requires Sortable(column) && DistinctIds(s)
    ensures Ordered(SortEntries(s, column, ascending), column, ascending)
  {
    if s != [] {
      var n := |s| - 1;
      assert DistinctIds(s[..n]);
      SortEntriesOrdered(s[..n], column, ascending);
      var t := SortEntries(s[..n], column, ascending);
      forall y | y in t ensures y.id != s[n].id {
        assert y in multiset(t);
        MemberOfPrefix(s, n, y);
      }
      InsertOrdered(s[n], t, column, ascending);
    }
  }

  /** Sorting one more entry inserts it into the sorted prefix. */
  lemma SortEntriesSnoc(s: seq<Entry>, i: nat, column: int, ascending: bool)
    requires Sortable(column) && i < |s|
    ensures SortEntries(s[..i + 1], column, ascending) == Insert(s[i], SortEntries(s[..i], column, ascending), column, ascending)
  {
    assert s[..i + 1][..i] == s[..i];
  }

  /** The sorting loop of `sortMessages`: each entry in turn is inserted into the ordered list built so far. */
  method InsertAll(newMsgs: seq<Entry>, column: int, ascending: bool) returns (sorted: seq<Entry>)
    requires Sortable(column)
    ensures sorted == SortEntries(newMsgs, column, ascending)
  {
    sorted := [];
    var i := 0;
    while i < |newMsgs|
      invariant 0 <= i <= |newMsgs|
      invariant sorted == SortEntries(newMsgs[..i], column, ascending)
    {
      SortEntriesSnoc(newMsgs, i, column, ascending);
      sorted := Insert(newMsgs[i], sorted, column, ascending);
      i := i + 1;
    }
    assert newMsgs[..i] == newMsgs;
  }

  /** Two ordered lists with the same entries are the same list: the sorted order is unique. */
  lemma {:induction false} OrderedUnique(a: seq<Entry>, b: seq<Entry>, column: int, ascending: bool)
    requires Sortable(column)
    requires Ordered(a, column, ascending) && Ordered(b, column, ascending)
    requires forall x :: x in a <==> x in b
    ensures a == b
  {
    if a == [] && b == [] {
    } else if a == [] {
      Text.HeadIsMember(b);
      assert false;
    } else {
      assert b != [] by { assert a[0] in b; }
      assert b[0] in a && a[0] in b;
      var i :| 0 <= i < |a| && a[i] == b[0];
      var j :| 0 <= j < |b| && b[j] == a[0];
      if i > 0 && j > 0 {
        BeforeAsymmetric(column, ascending, a[0], a[i]);
      } else if i > 0 {
        BeforeIrreflexive(column, ascending, a[0]);
      } else if j > 0 {
        BeforeIrreflexive(column, ascending, b[0]);
      }
      assert a[0] == b[0];
      forall x ensures x in a[1..] <==> x in b[1..] {
        if x in a[1..] {
          var k :| 1 <= k < |a| && a[k] == x;
          BeforeIrreflexive(column, ascending, x);
          assert x in b && x != b[0];
          assert b == [b[0]] + b[1..];
        }
        if x in b[1..] {
          var k :| 1 <= k < |b| && b[k] == x;
          BeforeIrreflexive(column, ascending, x);
          assert x in a && x != a[0];
          assert a == [a[0]] + a[1..];
        }
      }
      OrderedUnique(a[1..], b[1..], column, ascending);
      assert a == [a[0]] + a[1..] && b == [b[0]] + b[1..];
    }
  }

  function Reverse(s: seq<Entry>): (r: seq<Entry>)
    ensures |r| == |s| && forall i :: 0 <= i < |s| ==> r[i] == s[|s| - 1 - i]
  {
    seq(|s|, i requires 0 <= i < |s| => s[|s| - 1 - i])
  }

  /** A list ordered ascending, read backwards, is ordered descending. */
  lemma ReverseOrdered(up: seq<Entry>, column: int)
    requires Sortable(column) && Ordered(up, column, true)
    ensures Ordered(Reverse(up), column, false)
  {
    var rev := Reverse(up);
    forall i, j | 0 <= i < j < |rev| ensures Before(column, false, rev[i], rev[j]) {
      assert Before(column, true, up[|up| - 1 - j], up[|up| - 1 - i]);
    }
  }

  /** Reading a list backwards keeps its members. */
  lemma ReverseMembers(s: seq<Entry>)
    ensures forall x :: x in Reverse(s) <==> x in s
  {
    var rev := Reverse(s);
    forall x ensures x in rev <==> x in s {
      if x in rev {
        var k :| 0 <= k < |rev| && rev[k] == x;
        assert s[|s| - 1 - k] == x;
      }
      if x in s {
        var k :| 0 <= k < |s| && s[k] == x;
        assert rev[|s| - 1 - k] == x;
      }
    }
  }

  /** Sorting descending gives the ascending order read backwards. */
  lemma DescendingIsReverse(s: seq<Entry>, column: int)
    requires Sortable(column) && DistinctIds(s)
    ensures SortEntries(s, column, false) == Reverse(SortEntries(s, column, true))
  {
    var up := SortEntries(s, column, true);
    var down := SortEntries(s, column, false);
    SortEntriesOrdered(s, column, true);
    SortEntriesOrdered(s, column, false);
    ReverseOrdered(up, column);
    ReverseMembers(up);
    forall x ensures x in up <==> x in down {
      assert x in up <==> x in multiset(up);
      assert x in down <==> x in multiset(down);
    }
    OrderedUnique(down, Reverse(up), column, false);
  }

  /** What the list shows: the entries that pass the filters, sorted when the column is sortable. */
  function Listing(lastMsgs: seq<Entry>, f: map<int, string>, column: int, ascending: bool): seq<Entry>
  {
    if Sortable(column) then SortEntries(Filtered(lastMsgs, f), column, ascending)
    else Filtered(lastMsgs, f)
  }

  /** The listing holds exactly the entries passing the filters, each once, in the chosen order. */
  lemma ListingMeaning(lastMsgs: seq<Entry>, f: map<int, string>, column: int, ascending: bool)
    requires DistinctIds(lastMsgs)
    ensures forall x :: x in Listing(lastMsgs, f, column, ascending) <==> x in lastMsgs && Matches(x, f)
    ensures DistinctIds(Listing(lastMsgs, f, column, ascending))
    ensures Sortable(column) ==> Ordered(Listing(lastMsgs, f, column, ascending), column, ascending)
    ensures !Sortable(column) ==> Listing(lastMsgs, f, column, ascending) == Filtered(lastMsgs, f)
  {
    FilteredMeaning(lastMsgs, f);
    FilteredDistinct(lastMsgs, f);
    var l := Listing(lastMsgs, f, column, ascending);
    if Sortable(column) {
      var s := Filtered(lastMsgs, f);
      SortEntriesOrdered(s, column, ascending);
      assert multiset(l) == multiset(s);
      forall x ensures x in l <==> x in s {
        assert x in l <==> x in multiset(l);
        assert x in s <==> x in multiset(s);
      }
      OrderedDistinct(l, s, column, ascending);
    }
  }

  /** An ordered list drawn from entries of distinct ids has distinct ids too. */
  lemma OrderedDistinct(l: seq<Entry>, s: seq<Entry>, column: int, ascending: bool)
    requires Sortable(column) && Ordered(l, column, ascending) && DistinctIds(s)
    requires forall x :: x in l ==> x in s
    ensures DistinctIds(l)
  {
    forall i, j | 0 <= i < j < |l| ensures l[i].id != l[j].id {
      BeforeIrreflexive(column, ascending, l[i]);
      assert l[i] in s && l[j] in s;
      var a :| 0 <= a < |s| && s[a] == l[i];
      var b :| 0 <= b < |s| && s[b] == l[j];
      assert a != b;
    }
  }

  /** Any ordered permutation is the one `SortEntries` builds. */
  lemma SortedIsSortEntries(sorted: seq<Entry>, s: seq<Entry>, column: int, ascending: bool)
    requires Sortable(column) && DistinctIds(s)
    requires multiset(sorted) == multiset(s) && Ordered(sorted, column, ascending)
    ensures sorted == SortEntries(s, column, ascending)
  {
    var spec := SortEntries(s, column, ascending);
    SortEntriesOrdered(s, column, ascending);
    forall x ensures x in sorted <==> x in spec {
      assert x in sorted <==> x in multiset(sorted);
      assert x in spec <==> x in multiset(spec);
    }
    OrderedUnique(sorted, spec, column, ascending);
  }

  /** The loop of `fetchData` over the received messages, keeping those that pass the filters. */
  method FilterMessages(lastMsgs: seq<Entry>, f: map<int, string>) returns (newMsgs: seq<Entry>)
    ensures newMsgs == Filtered(lastMsgs, f)
  {
    newMsgs := [];
    var i := 0;
    while i < |lastMsgs|
      invariant 0 <= i <= |lastMsgs|
      invariant newMsgs == Filtered(lastMsgs[..i], f)
    {
      var keep := Contains(lastMsgs[i], f);
      assert lastMsgs[..i + 1][..i] == lastMsgs[..i];
      if keep {
        newMsgs := newMsgs + [lastMsgs[i]];
      }
      i := i + 1;
    }
    assert lastMsgs[..i] == lastMsgs;
  }

  /** With no filters the list shows every received message. */
  lemma NoFilterListsAll(lastMsgs: seq<Entry>, column: int, ascending: bool)
    requires DistinctIds(lastMsgs)
    ensures forall x :: x in Listing(lastMsgs, map[], column, ascending) <==> x in lastMsgs
  {
    ListingMeaning(lastMsgs, map[], column, ascending);
  }

  // ---------------------------------------------------------------------------
  // The model behind the table

  /** The default a lookup of an unknown id yields: no bytes. */
  function LastMessage(data: map<MessageId, CanData>, id: MessageId): CanData {
    if id in data then data[id] else CanData(0, 0.0, [], [])
  }

  /** Byte `i` of message `id` changed less than two seconds before `curTs`. */
  predicate Recent(data: map<MessageId, CanData>, curTs: real, id: MessageId, i: int) {
    var d := LastMessage(data, id);
    0 <= i < |d.dat| && i < |d.lastChangeT| && curTs - d.lastChangeT[i] < 2.0
  }

  /** Every message keeps a change time for each of its bytes. */
  predicate ChangeTimesCover(data: map<MessageId, CanData>) {
    forall id :: id in data ==> |data[id].dat| <= |data[id].lastChangeT|
  }

  class MessageListModel {
    var filterStr: map<int, string>
    var msgs: seq<MessageId>
    var sortColumn: int
    var ascending: bool
    var suppressed: set<(MessageId, int)>

    constructor()
      ensures filterStr == map[] && msgs == [] && suppressed == {}
      ensures sortColumn == NAME && ascending
    {
      filterStr := map[];
      msgs := [];
      sortColumn := NAME;
      ascending := true;
      suppressed := {};
    }

    /** `sortMessages`: a permutation of `newMsgs`, ordered by (key, id) when the column is sortable. */
    method SortMessages(newMsgs: seq<Entry>) returns (sorted: seq<Entry>)
      requires DistinctIds(newMsgs)
      ensures multiset(sorted) == multiset(newMsgs)
      ensures Sortable(sortColumn) ==> Ordered(sorted, sortColumn, ascending)
      ensures !Sortable(sortColumn) ==> sorted == newMsgs
    {
      if !Sortable(sortColumn) {
        return newMsgs;
      }
      sorted := InsertAll(newMsgs, sortColumn, ascending);
      SortEntriesOrdered(newMsgs, sortColumn, ascending);
    }

    /** `fetchData`: rebuild the list from the received messages; `reset` says whether it changed. */
    method FetchData(lastMsgs: seq<Entry>) returns (reset: bool)
      requires DistinctIds(lastMsgs)
      modifies this`msgs
      ensures msgs == Ids(Listing(lastMsgs, filterStr, sortColumn, ascending))
      ensures reset <==> msgs != old(msgs)
    {
      var newMsgs := FilterMessages(lastMsgs, filterStr);
      FilteredDistinct(lastMsgs, filterStr);
      var sorted := SortMessages(newMsgs);
      if Sortable(sortColumn) {
        SortedIsSortEntries(sorted, newMsgs, sortColumn, ascending);
      }
      var ids := Ids(sorted);
      reset := msgs != ids;
      if reset {
        msgs := ids;
      }
    }

    /** `setFilterStrings`: take the new filters and rebuild the list. */
    method SetFilterStrings(filters: map<int, string>, lastMsgs: seq<Entry>)
      requires DistinctIds(lastMsgs)
      modifies this`filterStr, this`msgs
      ensures filterStr == filters
      ensures msgs == Ids(Listing(lastMsgs, filters, sortColumn, ascending))
    {
      filterStr := filters;
      var _ := FetchData(lastMsgs);
    }

    /** `sort`: any column but the last becomes the sort column, and the list is rebuilt. */
    method Sort(column: int, asc: bool, lastMsgs: seq<Entry>)
      requires DistinctIds(lastMsgs)
      modifies this`sortColumn, this`ascending, this`msgs
      ensures column == ColumnCount - 1 ==> unchanged(this)
      ensures column != ColumnCount - 1 ==>
        sortColumn == column && ascending == asc &&
        msgs == Ids(Listing(lastMsgs, filterStr, column, asc))
    {
      if column != ColumnCount - 1 {
        sortColumn := column;
        ascending := asc;
        var _ := FetchData(lastMsgs);
      }
    }

    /** The recently changed bytes of one message join the suppressed set. */
    method SuppressMessage(data: map<MessageId, CanData>, curTs: real, id: MessageId)
      requires ChangeTimesCover(data)
      modifies this`suppressed
      ensures forall m, i :: (m, i) in suppressed <==>
        (m, i) in old(suppressed) || (m == id && Recent(data, curTs, id, i))
    {
      var canData := LastMessage(data, id);
      var i := 0;
      while i < |canData.dat|
        invariant 0 <= i <= |canData.dat|
        invariant forall m, k :: (m, k) in suppressed <==>
          (m, k) in old(suppressed) || (m == id && k < i && Recent(data, curTs, id, k))
      {
        var dt := curTs - canData.lastChangeT[i];
        if dt < 2.0 {
          suppressed := suppressed + {(id, i)};
        }
        i := i + 1;
      }
    }

    /** `suppress`: every byte of a listed message that changed in the last two seconds is suppressed. */
    method Suppress(data: map<MessageId, CanData>, curTs: real)
      requires ChangeTimesCover(data)
      modifies this`suppressed
      ensures forall m, i :: (m, i) in suppressed <==>
        (m, i) in old(suppressed) || (m in msgs && Recent(data, curTs, m, i))
    {
      var k := 0;
      while k < |msgs|
        invariant 0 <= k <= |msgs|
        invariant forall m, i :: (m, i) in suppressed <==>
          (m, i) in old(suppressed) || (m in msgs[..k] && Recent(data, curTs, m, i))
      {
        SuppressMessage(data, curTs, msgs[k]);
        assert msgs[..k + 1] == msgs[..k] + [msgs[k]];
        k := k + 1;
      }
      assert msgs[..k] == msgs;
    }

    /** `clearSuppress`. */
    method ClearSuppress()
      modifies this`suppressed
      ensures suppressed == {}
    {
      suppressed := {};
    }

    /** `reset`: no filters, no messages, nothing suppressed. */
    method Reset()
      modifies this`filterStr, this`msgs, this`suppressed
      ensures filterStr == map[] && msgs == [] && suppressed == {}
    {
      filterStr := map[];
      msgs := [];
      ClearSuppress();
    }
  }

  /**
    `MessageViewHeader::updateFilters`: the filter map holds the text of every
    column whose editor exists and is not empty.
  */
  method UpdateFilters(editors: seq<Option<string>>) returns (filters: map<int, string>)
    ensures forall i :: i in filters <==> 0 <= i < |editors| && editors[i].Some? && editors[i].value != ""
    ensures forall i :: i in filters ==> filters[i] == editors[i].value
  {
    filters := map[];
    var i := 0;
    while i < |editors|
      invariant 0 <= i <= |editors|
      invariant forall k :: k in filters <==> 0 <= k < i && editors[k].Some? && editors[k].value != ""
      invariant forall k :: k in filters ==> filters[k] == editors[k].value
    {
      if editors[i].Some? {
        var filter := editors[i].value;
        if filter != "" {
          filters := filters[i := filter];
        }
      }
      i := i + 1;
    }
  }
}
