/**
  The log-size breakdown script: decimating a raw log the way the logger
  thins it into a qlog, sorting the per-type compressed sizes, and folding
  the small types into one "other" slice.
*/
module QlogSize {
  import opened Common
  import Text

  /** A logged message, as far as the breakdown looks at it: its type name. */
  datatype Msg = Msg(which: string, payload: seq<Byte>)

  /** The per-service decimation factor; None means the service is not kept in qlogs. */
  type Services = map<string, Option<int>>

  /** Types kept whatever their decimation. */
  predicate AlwaysKept(which: string) {
    which == "initData" || which == "sentinel"
  }

  /** How many of `msgs` have type `which`. */
  function CountType(msgs: seq<Msg>, which: string): nat
  {
    if msgs == [] then 0
    else CountType(msgs[..|msgs| - 1], which) + (if msgs[|msgs| - 1].which == which then 1 else 0)
  }

  /**
    The message at index `j` survives: an always-kept type, or a type with
    decimation `d` whose earlier messages number a multiple of `d`.
  */
  predicate KeptAt(msgs: seq<Msg>, services: Services, j: nat)
    requires j < |msgs|
    requires Decimable(msgs[..j + 1], services)
  {
    var t := msgs[j].which;
    AlwaysKept(t) ||
    (services[t].Some? && CountType(msgs[..j], t) % services[t].value == 0)
  }

  /** Every message can be looked up: its type is always kept, or is a known service with no zero factor. */
  predicate Decimable(msgs: seq<Msg>, services: Services) {
    forall j :: 0 <= j < |msgs| ==> DecimableMsg(msgs[j], services)
  }

  predicate DecimableMsg(m: Msg, services: Services) {
    AlwaysKept(m.which) ||
    (m.which in services && (services[m.which].Some? ==> services[m.which].value != 0))
  }

  /** The surviving messages in their original order. */
  function Kept(msgs: seq<Msg>, services: Services): (r: seq<Msg>)
    requires Decimable(msgs, services)
  {
    if msgs == [] then []
    else
      var n := |msgs| - 1;
      assert msgs[..n + 1] == msgs;
      Kept(msgs[..n], services) + (if KeptAt(msgs, services, n) then [msgs[n]] else [])
  }

  /**
    `--as-qlog` decimation: walks the log with one counter per type. A type
    missing from the service list is an error (the lookup raises), and so is
    a zero factor (the modulo raises).
  */
  method Decimate(msgs: seq<Msg>, services: Services) returns (r: Result<seq<Msg>>)
    ensures r.Ok? <==> Decimable(msgs, services)
    ensures r.Ok? ==> r.value == Kept(msgs, services)
  {
    var newMsgs: seq<Msg> := [];
    var msgCnts: map<string, nat> := map[];
    var i := 0;
    while i < |msgs|
      invariant 0 <= i <= |msgs|
      invariant Decimable(msgs[..i], services)
      invariant newMsgs == Kept(msgs[..i], services)
      invariant forall t :: !AlwaysKept(t) && t in services && services[t].Some? ==>
        CountOf(msgCnts, t) == CountType(msgs[..i], t)
    {
      var m := msgs[i];
      if DecimableMsg(m, services) {
        DecimateStep(msgs, services, i);
      }
      if AlwaysKept(m.which) {
        newMsgs := newMsgs + [m];
        i := i + 1;
        continue;
      }
      if m.which !in services {
        return Err("unknown service");
      }
      var decimation := services[m.which];
      if decimation.None? {
        i := i + 1;
        continue;
      }
      if decimation.value == 0 {
        return Err("integer modulo by zero");
      }
      var cnt := CountOf(msgCnts, m.which);
      if cnt % decimation.value == 0 {
        newMsgs := newMsgs + [m];
      }
      msgCnts := msgCnts[m.which := cnt + 1];
      i := i + 1;
    }
    assert msgs[..i] == msgs;
    return Ok(newMsgs);
  }

  /** The counter of a type, zero before its first message (`msg_cnts` is a `defaultdict(int)`). */
  function CountOf(cnts: map<string, nat>, t: string): nat {
    if t in cnts then cnts[t] else 0
  }

  /** One more message of the log: its type's count grows by one and it is kept by the rule of its type. */
  lemma DecimateStep(msgs: seq<Msg>, services: Services, i: nat)
    requires i < |msgs| && Decimable(msgs[..i], services) && DecimableMsg(msgs[i], services)
    ensures Decimable(msgs[..i + 1], services)
    ensures forall t :: CountType(msgs[..i + 1], t) == CountType(msgs[..i], t) + (if msgs[i].which == t then 1 else 0)
    ensures var t := msgs[i].which;
      Kept(msgs[..i + 1], services) == Kept(msgs[..i], services) +
        (if AlwaysKept(t) || (services[t].Some? && CountType(msgs[..i], t) % services[t].value == 0) then [msgs[i]] else [])
  {
    var p := msgs[..i + 1];
    assert p[..i] == msgs[..i];
    assert p == msgs[..i] + [msgs[i]];
  }

  /** Every always-kept message survives. */
  lemma AlwaysKeptSurvive(msgs: seq<Msg>, services: Services, j: nat)
    requires j < |msgs| && Decimable(msgs, services) && AlwaysKept(msgs[j].which)
    ensures msgs[j] in Kept(msgs, services)
  {
    KeptMembers(msgs, services, j);
  }

  /** The first message of any type that has a decimation factor survives. */
  lemma FirstOfTypeSurvives(msgs: seq<Msg>, services: Services, j: nat)
    requires j < |msgs| && Decimable(msgs, services)
    requires msgs[j].which in services && services[msgs[j].which].Some?
    requires CountType(msgs[..j], msgs[j].which) == 0
    ensures msgs[j] in Kept(msgs, services)
  {
    KeptMembers(msgs, services, j);
  }

  /** A message whose type has no decimation factor and is not always kept never survives. */
  lemma UndecimatedDropped(msgs: seq<Msg>, services: Services, which: string)
    requires Decimable(msgs, services) && !AlwaysKept(which)
    requires which in services && services[which].None?
    ensures forall m :: m in Kept(msgs, services) ==> m.which != which
  {
    KeptTypes(msgs, services);
  }

  /** Message `j` is among the survivors when `KeptAt` holds for it. */
  lemma {:induction false} KeptMembers(msgs: seq<Msg>, services: Services, j: nat)
    requires j < |msgs| && Decimable(msgs, services)
    ensures Decimable(msgs[..j + 1], services)
    ensures KeptAt(msgs, services, j) ==> msgs[j] in Kept(msgs, services)
  {
    var n := |msgs| - 1;
    assert msgs[..n + 1] == msgs;
    if j < n {
      assert Decimable(msgs[..n], services);
      assert msgs[..n][..j + 1] == msgs[..j + 1] && msgs[..n][..j] == msgs[..j];
      KeptMembers(msgs[..n], services, j);
    }
  }

  /** `sub` is `xs` with some elements left out and the rest in order. */
  ghost predicate Subsequence<T>(sub: seq<T>, xs: seq<T>) {
    exists idx: seq<nat> ::
      |idx| == |sub| &&
      (forall k :: 0 <= k < |idx| ==> idx[k] < |xs| && sub[k] == xs[idx[k]]) &&
      (forall k, l :: 0 <= k < l < |idx| ==> idx[k] < idx[l])
  }

  /** Extending the log by one message extends a subsequence of it by that message or by nothing. */
  lemma SubsequenceSnoc<T>(sub: seq<T>, xs: seq<T>, x: T, keep: bool)
    requires Subsequence(sub, xs)
    ensures Subsequence(sub + (if keep then [x] else []), xs + [x])
  {
    var idx: seq<nat> :| |idx| == |sub| &&
      (forall k :: 0 <= k < |idx| ==> idx[k] < |xs| && sub[k] == xs[idx[k]]) &&
      (forall k, l :: 0 <= k < l < |idx| ==> idx[k] < idx[l]);
    var sub2 := sub + (if keep then [x] else []);
    var idx2: seq<nat> := idx + (if keep then [|xs|] else []);
    assert |idx2| == |sub2|;
    assert forall k :: 0 <= k < |idx2| ==> idx2[k] < |xs + [x]| && sub2[k] == (xs + [x])[idx2[k]];
    assert forall k, l :: 0 <= k < l < |idx2| ==> idx2[k] < idx2[l];
  }

  /** The survivors are a subsequence of the log: decimation only drops messages and never reorders them. */
  lemma {:induction false} KeptSubsequence(msgs: seq<Msg>, services: Services)
    requires Decimable(msgs, services)
    ensures Subsequence(Kept(msgs, services), msgs)
  {
    if msgs == [] {
      var idx: seq<nat> := [];
      assert |idx| == |Kept(msgs, services)|;
    } else {
      var n := |msgs| - 1;
      assert msgs[..n + 1] == msgs;
      assert msgs[..n] + [msgs[n]] == msgs;
      assert Decimable(msgs[..n], services);
      KeptSubsequence(msgs[..n], services);
      SubsequenceSnoc(Kept(msgs[..n], services), msgs[..n], msgs[n], KeptAt(msgs, services, n));
    }
  }

  /** Only messages of a surviving type survive. */
  lemma {:induction false} KeptTypes(msgs: seq<Msg>, services: Services)
    requires Decimable(msgs, services)
    ensures forall m :: m in Kept(msgs, services) ==> m in msgs && KeptType(m, services)
  {
    if msgs != [] {
      var n := |msgs| - 1;
      assert msgs[..n + 1] == msgs;
      assert Decimable(msgs[..n], services);
      KeptTypes(msgs[..n], services);
      assert forall m :: m in msgs[..n] ==> m in msgs;
    }
  }

  /** A surviving type: always kept, or with a decimation factor. */
  predicate KeptType(m: Msg, services: Services) {
    AlwaysKept(m.which) || (m.which in services && services[m.which].Some?)
  }

  /** A message type with its compressed size in bytes (the size one type adds to the compressed log). */
  type Size = (string, int)

  predicate SortedBySize(s: seq<Size>) {
    forall i, j :: 0 <= i < j < |s| ==> s[i].1 <= s[j].1
  }

  /** Stable insertion of one entry after every entry of no larger size. */
  function InsertBySize(x: Size, s: seq<Size>): (r: seq<Size>)
    ensures multiset(r) == multiset(s) + multiset{x}
  {
    if s == [] then [x]
    else if x.1 < s[0].1 then [x] + s
    else
      assert s == [s[0]] + s[1..];
      [s[0]] + InsertBySize(x, s[1..])
  }

  lemma {:induction false} InsertBySizeSorted(x: Size, s: seq<Size>)
    requires SortedBySize(s)
    ensures SortedBySize(InsertBySize(x, s))
  {
    if s != [] && x.1 >= s[0].1 {
      assert SortedBySize(s[1..]);
      InsertBySizeSorted(x, s[1..]);
      var t := InsertBySize(x, s[1..]);
      forall k | 0 <= k < |t|
        ensures s[0].1 <= t[k].1
      {
        assert t[k] in multiset(t);
        assert t[k] == x || t[k] in multiset(s[1..]);
        if t[k] != x {
          var j :| 0 <= j < |s[1..]| && s[1..][j] == t[k];
          assert s[j + 1] == t[k];
        }
      }
      var r := [s[0]] + t;
      forall i, j | 0 <= i < j < |r|
        ensures r[i].1 <= r[j].1
      {
        if i > 0 {
          assert r[i] == t[i - 1] && r[j] == t[j - 1];
        } else {
          assert r[j] == t[j - 1];
        }
      }
    }
  }

  /** `sorted(items, key=size)`: ascending by size, equal sizes kept in their original order. */
  function SortBySize(items: seq<Size>): (r: seq<Size>)
    ensures SortedBySize(r)
    ensures multiset(r) == multiset(items)
  {
    if items == [] then []
    else
      var n := |items| - 1;
      assert items == items[..n] + [items[n]];
      var sorted := SortBySize(items[..n]);
      InsertBySizeSorted(items[n], sorted);
      InsertBySize(items[n], sorted)
  }

  /** The entries of size `v`, in their order in `s`. */
  function OfSize(s: seq<Size>, v: int): seq<Size>
  {
    if s == [] then [] else (if s[0].1 == v then [s[0]] else []) + OfSize(s[1..], v)
  }

  lemma {:induction false} OfSizeAppend(a: seq<Size>, b: seq<Size>, v: int)
    ensures OfSize(a + b, v) == OfSize(a, v) + OfSize(b, v)
  {
    if a == [] {
      assert a + b == b;
    } else {
      assert (a + b)[0] == a[0] && (a + b)[1..] == a[1..] + b;
      OfSizeAppend(a[1..], b, v);
    }
  }

  lemma {:induction false} OfSizeAbove(s: seq<Size>, v: int)
    requires forall k :: 0 <= k < |s| ==> s[k].1 > v
    ensures OfSize(s, v) == []
  {
    if s != [] {
      OfSizeAbove(s[1..], v);
    }
  }

  /** Insertion puts the new entry after every entry of its size already there. */
  lemma {:induction false} InsertBySizeStable(x: Size, s: seq<Size>, v: int)
    requires SortedBySize(s)
    ensures OfSize(InsertBySize(x, s), v) == OfSize(s, v) + (if x.1 == v then [x] else [])
  {
    var e: seq<Size> := if x.1 == v then [x] else [];
    if s == [] {
      assert OfSize([x][1..], v) == [];
    } else if x.1 < s[0].1 {
      var r := [x] + s;
      assert InsertBySize(x, s) == r;
      assert r[0] == x && r[1..] == s;
      assert OfSize(r, v) == e + OfSize(s, v);
      if x.1 == v {
        OfSizeAbove(s, v);
      }
    } else {
      var t := InsertBySize(x, s[1..]);
      var r := [s[0]] + t;
      assert InsertBySize(x, s) == r;
      assert r[0] == s[0] && r[1..] == t;
      var h: seq<Size> := if s[0].1 == v then [s[0]] else [];
      assert OfSize(r, v) == h + OfSize(t, v);
      assert OfSize(s, v) == h + OfSize(s[1..], v);
      assert SortedBySize(s[1..]);
      InsertBySizeStable(x, s[1..], v);
    }
  }

  /**
    `sorted` is stable: the entries of any one size come out in the order
    they went in.
  */
  lemma {:induction false} SortBySizeStable(items: seq<Size>, v: int)
    ensures OfSize(SortBySize(items), v) == OfSize(items, v)
  {
    if items != [] {
      var n := |items| - 1;
      assert items == items[..n] + [items[n]];
      SortBySizeStable(items[..n], v);
      InsertBySizeStable(items[n], SortBySize(items[..n]), v);
      OfSizeAppend(items[..n], [items[n]], v);
    }
  }

  /** An entry is shown on its own when it is at least MIN_SIZE = 0.5 percent of the total. */
  predicate IsLarge(sz: int, total: int) {
    200 * sz >= total
  }

  function LargeEntries(sizes: seq<Size>, total: int): (r: seq<Size>)
    ensures forall e :: e in r ==> e in sizes && IsLarge(e.1, total)
    ensures forall e :: e in sizes && IsLarge(e.1, total) ==> e in r
  {
    if sizes == [] then []
    else (if IsLarge(sizes[0].1, total) then [sizes[0]] else []) + LargeEntries(sizes[1..], total)
  }

  function SmallSum(sizes: seq<Size>, total: int): int
  {
    if sizes == [] then 0
    else (if IsLarge(sizes[0].1, total) then 0 else sizes[0].1) + SmallSum(sizes[1..], total)
  }

  function SumSizes(sizes: seq<Size>): int
  {
    if sizes == [] then 0 else sizes[0].1 + SumSizes(sizes[1..])
  }

  /** The pie's slices: the large entries in their order, then one "other" slice with the sum of the rest. */
  function PieSlices(sizes: seq<Size>, total: int): (r: seq<Size>)
    ensures |r| >= 1 && r[|r| - 1] == ("other", SmallSum(sizes, total))
  {
    LargeEntries(sizes, total) + [("other", SmallSum(sizes, total))]
  }

  /** Folding small entries into "other" keeps the total of all slices. */
  lemma {:induction false} PieKeepsTotal(sizes: seq<Size>, total: int)
    ensures SumSizes(PieSlices(sizes, total)) == SumSizes(sizes)
  {
    SumAppend(LargeEntries(sizes, total), [("other", SmallSum(sizes, total))]);
    LargeAndSmall(sizes, total);
  }

  lemma {:induction false} LargeAndSmall(sizes: seq<Size>, total: int)
    ensures SumSizes(LargeEntries(sizes, total)) + SmallSum(sizes, total) == SumSizes(sizes)
  {
    if sizes != [] {
      LargeAndSmall(sizes[1..], total);
      SumAppend(if IsLarge(sizes[0].1, total) then [sizes[0]] else [], LargeEntries(sizes[1..], total));
    }
  }

  lemma {:induction false} SumAppend(a: seq<Size>, b: seq<Size>)
    ensures SumSizes(a + b) == SumSizes(a) + SumSizes(b)
  {
    if a != [] {
      assert (a + b)[1..] == a[1..] + b;
      SumAppend(a[1..], b);
    } else {
      assert a + b == b;
    }
  }

  /** The large entries of a sorted list stay sorted. */
  lemma {:induction false} LargeEntriesSorted(sizes: seq<Size>, total: int)
    requires SortedBySize(sizes)
    ensures SortedBySize(LargeEntries(sizes, total))
  {
    if sizes != [] {
      assert SortedBySize(sizes[1..]);
      LargeEntriesSorted(sizes[1..], total);
      var rest := LargeEntries(sizes[1..], total);
      assert forall e :: e in rest ==> e in sizes[1..];
      assert forall e :: e in sizes[1..] ==> sizes[0].1 <= e.1;
    }
  }
}
