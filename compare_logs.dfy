/**
  Comparing a replayed process's log with its reference log: resetting
  ignored fields, dropping ignored message types, grouping by type, refusing
  logs whose type sets differ, diffing the types whose message counts differ,
  and summarising per-process results into a short and a long report.
*/
module CompareLogs {
  import opened Common
  import Text

  /** A field value of a logged message, as far as the ignore rules look at it. */
  datatype Value =
    | BoolV(b: bool)
    | IntV(i: int)
    | RealV(r: real)
    | ListV(items: seq<Value>)
    | StructV(fields: map<string, Value>)
    | TextV(s: string)

  /** A logged event: the name of its union member, and the whole event structure. */
  datatype Msg = Msg(which: string, root: Value)

  /**
    One difference reported by the deep comparison: its kind, its path, and
    the changed value, which is kept as the text Python's `repr` gives it.
  */
  datatype DiffItem = DiffItem(kind: string, item: string, value: string)

  /** A key that indexes into a list (`str.isdigit`). */
  predicate IsDigits(k: string) {
    |k| > 0 && forall i :: 0 <= i < |k| ==> Text.IsDigit(k[i])
  }

  function Index(k: string): nat
    requires IsDigits(k)
  {
    Text.DigitsValue(k, 10)
  }

  /** The field `k` of a structure, or None when there is no such field. */
  function Field(v: Value, k: string): Option<Value> {
    if v.StructV? && k in v.fields then Some(v.fields[k]) else None
  }

  /** One inner step of the walk: a digit key indexes a list, any other key names a field. */
  function Child(v: Value, k: string): Option<Value> {
    if IsDigits(k) then
      if v.ListV? && Index(k) < |v.items| then Some(v.items[Index(k)]) else None
    else Field(v, k)
  }

  /** `v` with the child that `k` addresses replaced by `c`. */
  function SetChild(v: Value, k: string, c: Value): (r: Value)
    requires Child(v, k).Some?
    ensures Child(r, k) == Some(c)
  {
    if IsDigits(k) then ListV(v.items[Index(k) := c]) else StructV(v.fields[k := c])
  }

  /**
    The value at a dotted path, walked as the ignore rules walk it: inner
    keys by `Child`, the last key always as a field name. None where the walk
    would raise.
  */
  function Get(v: Value, path: seq<string>): Option<Value>
    requires |path| >= 1
    decreases |path|
  {
    if |path| == 1 then Field(v, path[0])
    else
      match Child(v, path[0])
      case None => None
      case Some(c) => Get(c, path[1..])
  }

  /** A field the ignore rules can reset: a bool, a number or a list. */
  predicate Resettable(v: Value) {
    v.BoolV? || v.IntV? || v.RealV? || v.ListV?
  }

  /** The reset value: False for a bool, 0 for a number, [] for a list. */
  function Zero(v: Value): Value
    requires Resettable(v)
  {
    match v
    case BoolV(_) => BoolV(false)
    case IntV(_) => IntV(0)
    case RealV(_) => RealV(0.0)
    case ListV(_) => ListV([])
  }

  /** Resets the field at `path`; fails where the walk raises or the field has another type. */
  function Reset(v: Value, path: seq<string>): Result<Value>
    requires |path| >= 1
    decreases |path|
  {
    if |path| == 1 then
      match Field(v, path[0])
      case None => Err("no such field")
      case Some(f) =>
        if Resettable(f) then Ok(StructV(v.fields[path[0] := Zero(f)])) else Err("Unknown type")
    else
      match Child(v, path[0])
      case None => Err("no such field")
      case Some(c) =>
        match Reset(c, path[1..])
        case Err(e) => Err(e)
        case Ok(c2) => Ok(SetChild(v, path[0], c2))
  }

  /** A reset succeeds exactly when the field exists and is a bool, a number or a list. */
  lemma {:induction false} ResetOkIff(v: Value, path: seq<string>)
    requires |path| >= 1
    ensures Reset(v, path).Ok? <==> Get(v, path).Some? && Resettable(Get(v, path).value)
    decreases |path|
  {
    if |path| > 1 && Child(v, path[0]).Some? {
      ResetOkIff(Child(v, path[0]).value, path[1..]);
    }
  }

  /** After a reset the field reads as its zero value. */
  lemma {:induction false} ResetZeroes(v: Value, path: seq<string>)
    requires |path| >= 1 && Reset(v, path).Ok?
    ensures Get(v, path).Some? && Resettable(Get(v, path).value)
    ensures Get(Reset(v, path).value, path) == Some(Zero(Get(v, path).value))
    decreases |path|
  {
    if |path| > 1 {
      ResetZeroes(Child(v, path[0]).value, path[1..]);
    }
  }

  /** Two keys address different children of the same node. */
  predicate DistinctKeys(a: string, b: string) {
    a != b && !(IsDigits(a) && IsDigits(b) && Index(a) == Index(b))
  }

  /** Two paths that share a prefix and then part at keys addressing different children. */
  predicate Diverge(p: seq<string>, q: seq<string>, i: nat) {
    i < |p| && i < |q| && p[..i] == q[..i] && DistinctKeys(p[i], q[i])
  }

  /** A reset leaves every field on a diverging path as it was. */
  lemma {:induction false} ResetKeepsOthers(v: Value, p: seq<string>, q: seq<string>, i: nat)
    requires |p| >= 1 && |q| >= 1 && Reset(v, p).Ok? && Diverge(p, q, i)
    ensures Get(Reset(v, p).value, q) == Get(v, q)
    decreases |p|
  {
    var w := Reset(v, p).value;
    if i > 0 {
      assert p[0] == q[0] by { assert p[..i][0] == q[..i][0]; }
      var c := Child(v, p[0]).value;
      var c2 := Reset(c, p[1..]).value;
      assert Child(w, p[0]) == Some(c2);
      assert p[1..][..i - 1] == q[1..][..i - 1] by {
        assert p[1..][..i - 1] == p[..i][1..] && q[1..][..i - 1] == q[..i][1..];
      }
      ResetKeepsOthers(c, p[1..], q[1..], i - 1);
    } else if |q| > 1 {
      ChildAfterReset(v, p, q[0]);
    } else {
      FieldAfterReset(v, p, q[0]);
    }
  }

  /** An inner step by a key other than the reset path's first one sees the node unchanged. */
  lemma ChildAfterReset(v: Value, p: seq<string>, k: string)
    requires |p| >= 1 && Reset(v, p).Ok? && DistinctKeys(p[0], k)
    ensures Child(Reset(v, p).value, k) == Child(v, k)
  {
  }

  /** A field other than the reset path's first key is unchanged by the reset. */
  lemma FieldAfterReset(v: Value, p: seq<string>, k: string)
    requires |p| >= 1 && Reset(v, p).Ok? && DistinctKeys(p[0], k)
    ensures Field(Reset(v, p).value, k) == Field(v, k)
  {
  }

  /** One ignore key applied to one message: a dotted key whose first part names another type is skipped. */
  function ApplyIgnore(m: Msg, key: string): Result<Msg> {
    var keys := Text.Split(key, '.');
    if m.which != keys[0] && |keys| > 1 then Ok(m)
    else
      match Reset(m.root, keys)
      case Err(e) => Err(e)
      case Ok(root) => Ok(Msg(m.which, root))
  }

  /** All ignore keys applied in order; the first failing key aborts. */
  function Strip(m: Msg, ignore: seq<string>): Result<Msg>
    decreases |ignore|
  {
    if ignore == [] then Ok(m)
    else
      match ApplyIgnore(m, ignore[0])
      case Err(e) => Err(e)
      case Ok(m1) => Strip(m1, ignore[1..])
  }

  /** `remove_ignored_fields`: resets each ignored field of the message in turn. */
  method RemoveIgnoredFields(msg: Msg, ignore: seq<string>) returns (r: Result<Msg>)
    ensures r == Strip(msg, ignore)
  {
    var m := msg;
    var k := 0;
    while k < |ignore|
      invariant 0 <= k <= |ignore|
      invariant Strip(msg, ignore) == Strip(m, ignore[k..])
    {
      assert ignore[k..][1..] == ignore[k + 1..];
      var step := ApplyIgnore(m, ignore[k]);
      if step.Err? {
        return Err(step.reason);
      }
      m := step.value;
      k := k + 1;
    }
    return Ok(m);
  }

  /** Keys that all name another message type leave a message as it was. */
  lemma {:induction false} StripSkipsOtherTypes(m: Msg, ignore: seq<string>)
    requires forall k :: k in ignore ==>
      |Text.Split(k, '.')| > 1 && Text.Split(k, '.')[0] != m.which
    ensures Strip(m, ignore) == Ok(m)
    decreases |ignore|
  {
    if ignore != [] {
      assert ignore[0] in ignore;
      assert forall k :: k in ignore[1..] ==> k in ignore;
      StripSkipsOtherTypes(m, ignore[1..]);
    }
  }

  /** The stripped structures of a list of messages; the first failure aborts. */
  function StripAll(msgs: seq<Msg>, ignore: seq<string>): (r: Result<seq<Value>>)
    ensures r.Ok? ==> |r.value| == |msgs|
  {
    if msgs == [] then Ok([])
    else
      match Strip(msgs[0], ignore)
      case Err(e) => Err(e)
      case Ok(m) =>
        match StripAll(msgs[1..], ignore)
        case Err(e) => Err(e)
        case Ok(rest) => Ok([m.root] + rest)
  }

  /** The stripped structures, one message at a time in list order (the list comprehension). */
  method StripEach(msgs: seq<Msg>, ignore: seq<string>) returns (r: Result<seq<Value>>)
    ensures r == StripAll(msgs, ignore)
  {
    var out: seq<Value> := [];
    var k := 0;
    PrependLaws(out, [], StripAll(msgs, ignore));
    while k < |msgs|
      invariant 0 <= k <= |msgs|
      invariant StripAll(msgs, ignore) == Prepend(out, StripAll(msgs[k..], ignore))
    {
      assert msgs[k..][1..] == msgs[k + 1..];
      var m := RemoveIgnoredFields(msgs[k], ignore);
      if m.Err? {
        return Err(m.reason);
      }
      PrependLaws(out, [m.value.root], StripAll(msgs[k + 1..], ignore));
      out := out + [m.value.root];
      k := k + 1;
    }
    PrependLaws(out, [], Ok([]));
    return Ok(out);
  }

  /** `d` followed by the items of `r`, or `r`'s failure. */
  function Prepend<T>(d: seq<T>, r: Result<seq<T>>): Result<seq<T>> {
    if r.Ok? then Ok(d + r.value) else r
  }

  lemma PrependLaws<T>(a: seq<T>, b: seq<T>, r: Result<seq<T>>)
    ensures Prepend([], r) == r
    ensures Prepend(a, Prepend(b, r)) == Prepend(a + b, r)
    ensures Prepend(a, Ok([])) == Ok(a)
  {
    if r.Ok? {
      assert [] + r.value == r.value;
      assert a + (b + r.value) == (a + b) + r.value;
    }
    assert a + [] == a;
  }

  /** The messages whose type is not ignored, in log order. */
  function Keep(log: seq<Msg>, ignoreMsgs: seq<string>): (r: seq<Msg>)
    ensures forall m :: m in r <==> m in log && m.which !in ignoreMsgs
  {
    if log == [] then []
    else
      var n := |log| - 1;
      assert log == log[..n] + [log[n]];
      Keep(log[..n], ignoreMsgs) + (if log[n].which in ignoreMsgs then [] else [log[n]])
  }

  /** The messages of type `t`, in log order. */
  function OfType(log: seq<Msg>, t: string): seq<Msg>
  {
    if log == [] then []
    else
      var n := |log| - 1;
      OfType(log[..n], t) + (if log[n].which == t then [log[n]] else [])
  }

  /** A group holds exactly the log's messages of its type. */
  lemma {:induction false} OfTypeMembers(log: seq<Msg>, t: string)
    ensures forall m :: m in OfType(log, t) <==> m in log && m.which == t
  {
    if log != [] {
      var n := |log| - 1;
      assert log == log[..n] + [log[n]];
      OfTypeMembers(log[..n], t);
    }
  }

  /** The types present in a log. */
  function Types(log: seq<Msg>): set<string>
  {
    if log == [] then {} else Types(log[..|log| - 1]) + {log[|log| - 1].which}
  }

  predicate Distinct(s: seq<string>) {
    forall i, j :: 0 <= i < j < |s| ==> s[i] != s[j]
  }

  /** The types of a log in order of first appearance (the key order of the grouping dictionary). */
  function Order(log: seq<Msg>): (r: seq<string>)
    ensures Distinct(r)
    ensures forall t :: t in r <==> t in Types(log)
  {
    if log == [] then []
    else
      var n := |log| - 1;
      assert log == log[..n] + [log[n]];
      var prev := Order(log[..n]);
      if log[n].which in prev then prev else prev + [log[n].which]
  }

  /** A type with no message in the log has no group. */
  lemma {:induction false} OfTypeAbsent(log: seq<Msg>, t: string)
    ensures t !in Types(log) ==> OfType(log, t) == []
  {
    if log != [] {
      OfTypeAbsent(log[..|log| - 1], t);
    }
  }

  /** How order and types grow when the log grows by the message at index `i`. */
  lemma GroupStep(log: seq<Msg>, i: nat)
    requires i < |log|
    ensures Order(log[..i + 1]) ==
      if log[i].which in Order(log[..i]) then Order(log[..i]) else Order(log[..i]) + [log[i].which]
    ensures Types(log[..i + 1]) == Types(log[..i]) + {log[i].which}
  {
    var s := log[..i + 1];
    assert s[..i] == log[..i] && s[i] == log[i];
    assert |s| - 1 == i;
  }

  /** How one type's messages grow when the log grows by the message at index `i`. */
  lemma OfTypeStep(log: seq<Msg>, i: nat, t: string)
    requires i < |log|
    ensures OfType(log[..i + 1], t) == OfType(log[..i], t) + (if log[i].which == t then [log[i]] else [])
  {
    var s := log[..i + 1];
    assert s[..i] == log[..i] && s[i] == log[i];
    assert |s| - 1 == i;
  }

  /** `groups` holds, for every type of the log, that type's messages in log order. */
  predicate GroupsOf(groups: map<string, seq<Msg>>, log: seq<Msg>) {
    groups.Keys == Types(log) && forall t :: t in groups ==> groups[t] == OfType(log, t)
  }

  /** The grouping with one more message appended to its type's group, opening the group if it is new. */
  function Extend(groups: map<string, seq<Msg>>, m: Msg): map<string, seq<Msg>> {
    groups[m.which := (if m.which in groups then groups[m.which] else []) + [m]]
  }

  /** Extending by the next message keeps the grouping exact. */
  lemma GroupsGrow(groups: map<string, seq<Msg>>, log: seq<Msg>, i: nat)
    requires i < |log| && GroupsOf(groups, log[..i])
    ensures GroupsOf(Extend(groups, log[i]), log[..i + 1])
  {
    var m := log[i];
    GroupStep(log, i);
    var g2 := Extend(groups, m);
    assert g2.Keys == groups.Keys + {m.which};
    forall t | t in g2
      ensures g2[t] == OfType(log[..i + 1], t)
    {
      OfTypeStep(log, i, t);
      if t == m.which {
        OfTypeAbsent(log[..i], t);
      } else {
        assert g2[t] == groups[t];
      }
    }
  }

  /** Groups a log by type: the types in first-appearance order and each type's messages in log order. */
  method Group(log: seq<Msg>) returns (order: seq<string>, groups: map<string, seq<Msg>>)
    ensures order == Order(log)
    ensures GroupsOf(groups, log)
  {
    order := [];
    groups := map[];
    var i := 0;
    while i < |log|
      invariant 0 <= i <= |log|
      invariant order == Order(log[..i])
      invariant GroupsOf(groups, log[..i])
    {
      var m := log[i];
      GroupStep(log, i);
      GroupsGrow(groups, log, i);
      if m.which !in groups {
        order := order + [m.which];
      }
      groups := Extend(groups, m);
      i := i + 1;
    }
    assert log[..i] == log;
  }

  /**
    The diff items of type `t`: none when the two logs have as many messages
    of that type, otherwise the deep comparison of the stripped messages.
  */
  function TypeItems(t: string, ref: seq<Msg>, cur: seq<Msg>, ignoreFields: seq<string>,
                     deepDiff: (seq<Value>, seq<Value>) -> seq<DiffItem>): Result<seq<DiffItem>>
  {
    var g1 := OfType(ref, t);
    var g2 := OfType(cur, t);
    if |g1| == |g2| then Ok([])
    else
      match StripAll(g1, ignoreFields)
      case Err(e) => Err(e)
      case Ok(d1) =>
        match StripAll(g2, ignoreFields)
        case Err(e) => Err(e)
        case Ok(d2) => Ok(deepDiff(d1, d2))
  }

  /**
    The diff items of type `t` put in front of `rest`, the items of the types
    after it. Failures are reported in the order the loop meets them.
  */
  function TypeDiff(t: string, ref: seq<Msg>, cur: seq<Msg>, ignoreFields: seq<string>,
                    deepDiff: (seq<Value>, seq<Value>) -> seq<DiffItem>, rest: Result<seq<DiffItem>>): Result<seq<DiffItem>>
  {
    match TypeItems(t, ref, cur, ignoreFields, deepDiff)
    case Err(e) => Err(e)
    case Ok(items) => Prepend(items, rest)
  }

  /** The diff items of the types in `order`, for the types whose counts differ between the two logs. */
  function DiffsOver(order: seq<string>, ref: seq<Msg>, cur: seq<Msg>, ignoreFields: seq<string>,
                     deepDiff: (seq<Value>, seq<Value>) -> seq<DiffItem>): Result<seq<DiffItem>>
    decreases |order|
  {
    if order == [] then Ok([])
    else TypeDiff(order[0], ref, cur, ignoreFields, deepDiff, DiffsOver(order[1..], ref, cur, ignoreFields, deepDiff))
  }

  /** What `compare_logs` computes: ignored types dropped, type sets checked, count mismatches diffed. */
  function Compared(log1: seq<Msg>, log2: seq<Msg>, ignoreFields: seq<string>, ignoreMsgs: seq<string>,
                    deepDiff: (seq<Value>, seq<Value>) -> seq<DiffItem>): Result<seq<DiffItem>>
  {
    var ref := Keep(log1, ignoreMsgs);
    var cur := Keep(log2, ignoreMsgs);
    if Types(ref) != Types(cur) then Err("log service keys don't match")
    else DiffsOver(Order(ref), ref, cur, ignoreFields, deepDiff)
  }

  /**
    `compare_logs`: the deep comparison is a parameter. Missing ignore lists
    count as empty. The per-message comparison after `continue` is never
    reached and is not part of the model.
  */
  method Compare(log1: seq<Msg>, log2: seq<Msg>, ignoreFields: Option<seq<string>>, ignoreMsgs: Option<seq<string>>,
                 deepDiff: (seq<Value>, seq<Value>) -> seq<DiffItem>) returns (r: Result<seq<DiffItem>>)
    ensures r == Compared(log1, log2, ignoreFields.GetOr([]), ignoreMsgs.GetOr([]), deepDiff)
    ensures Types(Keep(log1, ignoreMsgs.GetOr([]))) != Types(Keep(log2, ignoreMsgs.GetOr([]))) ==> r.Err?
  {
    var fields := if ignoreFields.None? then [] else ignoreFields.value;
    var msgs := if ignoreMsgs.None? then [] else ignoreMsgs.value;
    var ref := Keep(log1, msgs);
    var cur := Keep(log2, msgs);
    var order1, groups1 := Group(ref);
    var order2, groups2 := Group(cur);
    if groups1.Keys != groups2.Keys {
      return Err("log service keys don't match");
    }
    r := DiffTypes(order1, groups1, groups2, ref, cur, fields, deepDiff);
  }

  /** The loop over the reference log's types, extending the diff list type by type. */
  method DiffTypes(order: seq<string>, groups1: map<string, seq<Msg>>, groups2: map<string, seq<Msg>>,
                   ref: seq<Msg>, cur: seq<Msg>, fields: seq<string>,
                   deepDiff: (seq<Value>, seq<Value>) -> seq<DiffItem>) returns (r: Result<seq<DiffItem>>)
    requires GroupsOf(groups1, ref) && GroupsOf(groups2, cur)
    requires forall t :: t in order ==> t in groups1 && t in groups2
    ensures r == DiffsOver(order, ref, cur, fields, deepDiff)
  {
    var diff: seq<DiffItem> := [];
    var k := 0;
    PrependLaws(diff, [], DiffsOver(order, ref, cur, fields, deepDiff));
    while k < |order|
      invariant 0 <= k <= |order|
      invariant DiffsOver(order, ref, cur, fields, deepDiff) ==
        Prepend(diff, DiffsOver(order[k..], ref, cur, fields, deepDiff))
    {
      var t := order[k];
      assert order[k..][1..] == order[k + 1..] && order[k..][0] == t;
      ghost var rest := DiffsOver(order[k + 1..], ref, cur, fields, deepDiff);
      assert DiffsOver(order[k..], ref, cur, fields, deepDiff) == TypeDiff(t, ref, cur, fields, deepDiff, rest);
      var items := DiffType(t, groups1[t], groups2[t], ref, cur, fields, deepDiff);
      if items.Err? {
        return Err(items.reason);
      }
      PrependLaws(diff, items.value, rest);
      diff := diff + items.value;
      k := k + 1;
    }
    PrependLaws(diff, [], Ok([]));
    return Ok(diff);
  }

  /** The body of the loop for type `t`, given its groups `g1` of `ref` and `g2` of `cur`. */
  method DiffType(t: string, g1: seq<Msg>, g2: seq<Msg>, ghost ref: seq<Msg>, ghost cur: seq<Msg>, fields: seq<string>,
                  deepDiff: (seq<Value>, seq<Value>) -> seq<DiffItem>) returns (r: Result<seq<DiffItem>>)
    requires g1 == OfType(ref, t) && g2 == OfType(cur, t)
    ensures r == TypeItems(t, ref, cur, fields, deepDiff)
  {
    if |g1| == |g2| {
      return Ok([]);
    }
    var d1 := StripEach(g1, fields);
    if d1.Err? {
      return Err(d1.reason);
    }
    var d2 := StripEach(g2, fields);
    if d2.Err? {
      return Err(d2.reason);
    }
    return Ok(deepDiff(d1.value, d2.value));
  }

  /** When the type sets match and every type has the same count in both logs, there is no difference. */
  lemma {:induction false} EqualCountsNoDiff(order: seq<string>, ref: seq<Msg>, cur: seq<Msg>, ignoreFields: seq<string>,
                                             deepDiff: (seq<Value>, seq<Value>) -> seq<DiffItem>)
    requires forall t :: t in order ==> |OfType(ref, t)| == |OfType(cur, t)|
    ensures DiffsOver(order, ref, cur, ignoreFields, deepDiff) == Ok([])
    decreases |order|
  {
    if order != [] {
      assert order[0] in order;
      assert forall t :: t in order[1..] ==> t in order;
      EqualCountsNoDiff(order[1..], ref, cur, ignoreFields, deepDiff);
      PrependLaws([], [], DiffsOver(order[1..], ref, cur, ignoreFields, deepDiff));
    }
  }

  /** Dropping ignored types twice is dropping them once. */
  lemma {:induction false} KeepIdempotent(log: seq<Msg>, ignoreMsgs: seq<string>)
    ensures Keep(Keep(log, ignoreMsgs), ignoreMsgs) == Keep(log, ignoreMsgs)
  {
    if log != [] {
      var n := |log| - 1;
      KeepIdempotent(log[..n], ignoreMsgs);
      var prev := Keep(log[..n], ignoreMsgs);
      var k := Keep(log, ignoreMsgs);
      if log[n].which !in ignoreMsgs {
        assert k[..|k| - 1] == prev;
      } else {
        assert k == prev;
      }
    }
  }

  /** Messages of ignored types appended to a log never change the comparison. */
  lemma {:induction false} IgnoredTypesIrrelevant(log1: seq<Msg>, extra: seq<Msg>, log2: seq<Msg>,
                                                  ignoreFields: seq<string>, ignoreMsgs: seq<string>,
                                                  deepDiff: (seq<Value>, seq<Value>) -> seq<DiffItem>)
    requires forall m :: m in extra ==> m.which in ignoreMsgs
    ensures Compared(log1 + extra, log2, ignoreFields, ignoreMsgs, deepDiff)
         == Compared(log1, log2, ignoreFields, ignoreMsgs, deepDiff)
  {
    KeepAppendIgnored(log1, extra, ignoreMsgs);
  }

  lemma {:induction false} KeepAppendIgnored(log: seq<Msg>, extra: seq<Msg>, ignoreMsgs: seq<string>)
    requires forall m :: m in extra ==> m.which in ignoreMsgs
    ensures Keep(log + extra, ignoreMsgs) == Keep(log, ignoreMsgs)
    decreases |extra|
  {
    if extra != [] {
      var n := |extra| - 1;
      assert (log + extra)[..|log + extra| - 1] == log + extra[..n];
      assert extra[n] in extra;
      assert forall m :: m in extra[..n] ==> m in extra;
      KeepAppendIgnored(log, extra[..n], ignoreMsgs);
    } else {
      assert log + extra == log;
    }
  }

  // ---------------------------------------------------------------------
  // Result summaries

  /** What one process's comparison gave: the text of an exception, or a list of differences. */
  datatype ProcResult = Raised(message: string) | Diffs(items: seq<DiffItem>)

  /** Per segment, per process, in insertion order. */
  type Results = seq<(string, seq<(string, ProcResult)>)>

  /** A result that makes the run fail: an exception, or at least one difference. */
  predicate Fails(r: ProcResult) {
    r.Raised? || |r.items| > 0
  }

  predicate AnyFails(results: Results) {
    exists i, j :: 0 <= i < |results| && 0 <= j < |results[i].1| && Fails(results[i].1[j].1)
  }

  /** `str` of the difference tuple: each string in it is printed as its `repr`, with quotes. */
  function Show(d: DiffItem): string {
    "(" + ReprEach([d.kind, d.item]) + d.value + ")"
  }

  /** Each string's `repr`, each followed by the tuple separator. */
  function ReprEach(xs: seq<string>): string
    decreases |xs|
  {
    if xs == [] then "" else Text.PyRepr(xs[0]) + ", " + ReprEach(xs[1..])
  }

  /** How many differences are at path `k`. */
  function Count(diff: seq<DiffItem>, k: string): nat {
    if diff == [] then 0
    else Count(diff[..|diff| - 1], k) + (if diff[|diff| - 1].item == k then 1 else 0)
  }

  function ItemKeys(diff: seq<DiffItem>): (r: seq<string>)
    ensures |r| == |diff| && forall i :: 0 <= i < |diff| ==> r[i] == diff[i].item
  {
    seq(|diff|, i requires 0 <= i < |diff| => diff[i].item)
  }

  /** One long-report line per difference, in order. */
  function ItemLines(diff: seq<DiffItem>): string {
    if diff == [] then "" else ItemLines(diff[..|diff| - 1]) + "\t" + Show(diff[|diff| - 1]) + "\n"
  }

  /** One short-report line per key of `keys`, with its count. */
  function CountLines(indent: string, keys: seq<string>, diff: seq<DiffItem>): string {
    if keys == [] then ""
    else
      var k := keys[|keys| - 1];
      CountLines(indent, keys[..|keys| - 1], diff) + indent + k + ": " + Text.NatToString(Count(diff, k)) + "\n"
  }

  /** The counts over a list of keys. */
  function SumCounts(keys: seq<string>, diff: seq<DiffItem>): nat {
    if keys == [] then 0 else SumCounts(keys[..|keys| - 1], diff) + Count(diff, keys[|keys| - 1])
  }

  /** Over distinct keys that include every difference's path, the counts add up to the number of differences. */
  lemma {:induction false} CountsSum(keys: seq<string>, diff: seq<DiffItem>)
    requires Distinct(keys)
    requires forall d :: d in diff ==> d.item in keys
    ensures SumCounts(keys, diff) == |diff|
  {
    if diff != [] {
      var n := |diff| - 1;
      assert forall d :: d in diff[..n] ==> d in diff;
      CountsSum(keys, diff[..n]);
      assert diff[n] in diff;
      SumCountsSnoc(keys, diff[..n], diff[n]);
      assert diff[..n] + [diff[n]] == diff;
    } else {
      SumCountsEmpty(keys);
    }
  }

  lemma {:induction false} SumCountsEmpty(keys: seq<string>)
    ensures SumCounts(keys, []) == 0
  {
    if keys != [] {
      SumCountsEmpty(keys[..|keys| - 1]);
    }
  }

  /** One more difference adds one to the sum over distinct keys that hold its path. */
  lemma {:induction false} SumCountsSnoc(keys: seq<string>, diff: seq<DiffItem>, d: DiffItem)
    requires Distinct(keys)
    ensures SumCounts(keys, diff + [d]) == SumCounts(keys, diff) + (if d.item in keys then 1 else 0)
  {
    if keys != [] {
      var n := |keys| - 1;
      assert (diff + [d])[..|diff + [d]| - 1] == diff;
      SumCountsSnoc(keys[..n], diff, d);
      assert d.item in keys <==> d.item in keys[..n] || d.item == keys[n];
      assert d.item == keys[n] ==> d.item !in keys[..n];
    }
  }

  /** The sorted distinct paths of a list of differences. */
  function CountKeys(diff: seq<DiffItem>): seq<string> {
    Text.SortedDistinct(ItemKeys(diff))
  }

  /** The per-path counts of a difference list, in ascending path order, add up to its length. */
  lemma CountKeysSum(diff: seq<DiffItem>)
    ensures Text.StrictlySorted(CountKeys(diff))
    ensures SumCounts(CountKeys(diff), diff) == |diff|
  {
    var keys := CountKeys(diff);
    forall i, j | 0 <= i < j < |keys| ensures keys[i] != keys[j] {
      Text.LexLessIrreflexive(keys[i]);
    }
    forall d | d in diff ensures d.item in keys {
      var i :| 0 <= i < |diff| && diff[i] == d;
      assert ItemKeys(diff)[i] == d.item;
    }
    CountsSum(keys, diff);
  }

  /** One more difference adds one to its path's count and leaves the others alone. */
  lemma CountSnoc(pre: seq<DiffItem>, d: DiffItem, x: string)
    ensures Count(pre + [d], x) == Count(pre, x) + (if d.item == x then 1 else 0)
  {
    assert (pre + [d])[..|pre|] == pre;
  }

  lemma ItemLinesStep(diff: seq<DiffItem>, i: nat)
    requires i < |diff|
    ensures ItemLines(diff[..i + 1]) == ItemLines(diff[..i]) + "\t" + Show(diff[i]) + "\n"
  {
    assert diff[..i + 1] == diff[..i] + [diff[i]];
    ItemLinesSnoc(diff[..i], diff[i]);
  }

  lemma ItemLinesSnoc(pre: seq<DiffItem>, d: DiffItem)
    ensures ItemLines(pre + [d]) == ItemLines(pre) + "\t" + Show(d) + "\n"
  {
    assert (pre + [d])[..|pre|] == pre;
  }

  /** `cnt` maps exactly the paths of `diff` to their counts. */
  ghost predicate Tally(cnt: map<string, nat>, diff: seq<DiffItem>) {
    (forall k :: k in cnt <==> k in ItemKeys(diff)) &&
    (forall k :: k in cnt ==> cnt[k] == Count(diff, k))
  }

  /** The count of `k` raised by one, starting from 1 for a new path. */
  function Counted(cnt: map<string, nat>, k: string): map<string, nat> {
    cnt[k := if k !in cnt then 1 else cnt[k] + 1]
  }

  /** Counting one more difference keeps the tally exact. */
  lemma TallySnoc(cnt: map<string, nat>, diff: seq<DiffItem>, i: nat)
    requires i < |diff| && Tally(cnt, diff[..i])
    ensures Tally(Counted(cnt, diff[i].item), diff[..i + 1])
  {
    var pre, d, k := diff[..i], diff[i], diff[i].item;
    var c := Counted(cnt, k);
    assert diff[..i + 1] == pre + [d];
    assert ItemKeys(pre + [d]) == ItemKeys(pre) + [k];
    forall x | x in c
      ensures c[x] == Count(pre + [d], x)
    {
      CountSnoc(pre, d, x);
      if x == k && k !in cnt {
        CountAbsent(pre, k);
      }
    }
  }

  /** The loop over the differences: one long line each, and a count per path. */
  method TallyDiff(diff: seq<DiffItem>) returns (long: string, cnt: map<string, nat>)
    ensures long == ItemLines(diff)
    ensures Tally(cnt, diff)
  {
    long := "";
    cnt := map[];
    var i := 0;
    while i < |diff|
      invariant 0 <= i <= |diff|
      invariant long == ItemLines(diff[..i])
      invariant Tally(cnt, diff[..i])
    {
      var d := diff[i];
      ItemLinesStep(diff, i);
      long := long + "\t" + Show(d) + "\n";
      TallySnoc(cnt, diff, i);
      cnt := Counted(cnt, d.item);
      i := i + 1;
    }
    assert diff[..i] == diff;
  }

  /** The per-path count lines, in ascending path order. */
  method CountReport(indent: string, cnt: map<string, nat>, diff: seq<DiffItem>) returns (counts: string)
    requires Tally(cnt, diff)
    ensures counts == CountLines(indent, CountKeys(diff), diff)
  {
    var keys := Text.SortedElements(cnt.Keys);
    Text.StrictlySortedUnique(keys, CountKeys(diff));
    counts := "";
    var j := 0;
    while j < |keys|
      invariant 0 <= j <= |keys|
      invariant counts == CountLines(indent, keys[..j], diff)
    {
      assert keys[..j + 1][..j] == keys[..j];
      counts := counts + indent + keys[j] + ": " + Text.NatToString(cnt[keys[j]]) + "\n";
      j := j + 1;
    }
    assert keys[..j] == keys;
  }

  /** A path that no difference has is counted zero times. */
  lemma {:induction false} CountAbsent(diff: seq<DiffItem>, k: string)
    requires k !in ItemKeys(diff)
    ensures Count(diff, k) == 0
  {
    if diff != [] {
      var n := |diff| - 1;
      assert ItemKeys(diff[..n]) == ItemKeys(diff)[..n];
      assert ItemKeys(diff)[n] == diff[n].item;
      CountAbsent(diff[..n], k);
    }
  }

  /** Where the reference and new logs of one process live. */
  datatype LogPaths = LogPaths(ref: string, cur: string)

  /** The two lines naming a process's logs in the short report. */
  function Where(paths: LogPaths): string {
    "        ref: " + paths.ref + "\n" + "        new: " + paths.cur + "\n\n"
  }

  /** The short lines of one process in this module's summary. */
  function ProcShort(proc: string, result: ProcResult, paths: LogPaths): string {
    var head := "    " + proc + "\n";
    match result
    case Raised(msg) => head + Where(paths) + ("        " + msg + "\n")
    case Diffs(items) =>
      if |items| == 0 then head else head + Where(paths) + CountLines("        ", CountKeys(items), items)
  }

  /** The head of one process's long lines: its name and its two logs. */
  function LongHead(proc: string, paths: LogPaths): string {
    "*** process: " + proc + " ***\n" + "\tref: " + paths.ref + "\n" + "\tnew: " + paths.cur + "\n\n"
  }

  /** The long lines of one process in this module's summary. */
  function ProcLong(proc: string, result: ProcResult, paths: LogPaths): string {
    if result.Diffs? && |result.items| > 0 then LongHead(proc, paths) + ItemLines(result.items)
    else LongHead(proc, paths)
  }

  predicate HasPaths(results: Results, logPaths: map<(string, string), LogPaths>) {
    forall i, j :: 0 <= i < |results| && 0 <= j < |results[i].1| ==> (results[i].0, results[i].1[j].0) in logPaths
  }

  function SegmentShort(seg: string, procs: seq<(string, ProcResult)>, logPaths: map<(string, string), LogPaths>): string
    requires forall j :: 0 <= j < |procs| ==> (seg, procs[j].0) in logPaths
  {
    if procs == [] then "***** results for segment " + seg + " *****\n"
    else
      var n := |procs| - 1;
      SegmentShort(seg, procs[..n], logPaths) + ProcShort(procs[n].0, procs[n].1, logPaths[(seg, procs[n].0)])
  }

  function SegmentLong(seg: string, procs: seq<(string, ProcResult)>, logPaths: map<(string, string), LogPaths>): string
    requires forall j :: 0 <= j < |procs| ==> (seg, procs[j].0) in logPaths
  {
    if procs == [] then "***** differences for segment " + seg + " *****\n"
    else
      var n := |procs| - 1;
      SegmentLong(seg, procs[..n], logPaths) + ProcLong(procs[n].0, procs[n].1, logPaths[(seg, procs[n].0)])
  }

  /** The short report: per segment a header, then per process its lines. */
  function ShortReport(results: Results, logPaths: map<(string, string), LogPaths>): string
    requires HasPaths(results, logPaths)
  {
    if results == [] then ""
    else
      var n := |results| - 1;
      assert HasPaths(results[..n], logPaths);
      ShortReport(results[..n], logPaths) + SegmentShort(results[n].0, results[n].1, logPaths)
  }

  /** The long report: the reference commit, then per segment a header and per process its lines. */
  function LongReport(results: Results, logPaths: map<(string, string), LogPaths>, refCommit: string): string
    requires HasPaths(results, logPaths)
  {
    if results == [] then "***** tested against commit " + refCommit + " *****\n"
    else
      var n := |results| - 1;
      assert HasPaths(results[..n], logPaths);
      LongReport(results[..n], logPaths, refCommit) + SegmentLong(results[n].0, results[n].1, logPaths)
  }

  /** The lines one process adds to the two reports, and whether it fails the run. */
  method ProcReport(proc: string, result: ProcResult, paths: LogPaths) returns (short: string, long: string, fails: bool)
    ensures short == ProcShort(proc, result, paths)
    ensures long == ProcLong(proc, result, paths)
    ensures fails == Fails(result)
  {
    long := LongHead(proc, paths);
    short := "    " + proc + "\n";
    fails := false;
    if result.Raised? {
      short := short + Where(paths);
      short := short + ("        " + result.message + "\n");
      fails := true;
    } else if |result.items| > 0 {
      short := short + Where(paths);
      var itemLines, cnt := TallyDiff(result.items);
      var counts := CountReport("        ", cnt, result.items);
      long := long + itemLines;
      short := short + counts;
      fails := true;
    }
  }

  /** One more process extends a segment's lines by that process's lines. */
  lemma SegmentStep(seg: string, procs: seq<(string, ProcResult)>, logPaths: map<(string, string), LogPaths>, j: nat)
    requires j < |procs|
    requires forall k :: 0 <= k < |procs| ==> (seg, procs[k].0) in logPaths
    ensures SegmentShort(seg, procs[..j + 1], logPaths) ==
      SegmentShort(seg, procs[..j], logPaths) + ProcShort(procs[j].0, procs[j].1, logPaths[(seg, procs[j].0)])
    ensures SegmentLong(seg, procs[..j + 1], logPaths) ==
      SegmentLong(seg, procs[..j], logPaths) + ProcLong(procs[j].0, procs[j].1, logPaths[(seg, procs[j].0)])
    ensures (exists k :: 0 <= k < j + 1 && Fails(procs[k].1)) <==>
      (exists k :: 0 <= k < j && Fails(procs[k].1)) || Fails(procs[j].1)
  {
    assert procs[..j + 1][..j] == procs[..j] && procs[..j + 1][j] == procs[j];
  }

  /** The lines of one segment: its two headers, then each process's lines in order. */
  method SegmentReport(seg: string, procs: seq<(string, ProcResult)>, logPaths: map<(string, string), LogPaths>)
    returns (short: string, long: string, fails: bool)
    requires forall j :: 0 <= j < |procs| ==> (seg, procs[j].0) in logPaths
    ensures short == SegmentShort(seg, procs, logPaths)
    ensures long == SegmentLong(seg, procs, logPaths)
    ensures fails <==> exists k :: 0 <= k < |procs| && Fails(procs[k].1)
  {
    short := "***** results for segment " + seg + " *****\n";
    long := "***** differences for segment " + seg + " *****\n";
    fails := false;
    var j := 0;
    while j < |procs|
      invariant 0 <= j <= |procs|
      invariant short == SegmentShort(seg, procs[..j], logPaths)
      invariant long == SegmentLong(seg, procs[..j], logPaths)
      invariant fails <==> exists k :: 0 <= k < j && Fails(procs[k].1)
    {
      SegmentStep(seg, procs, logPaths, j);
      var s, l, f := ProcReport(procs[j].0, procs[j].1, logPaths[(seg, procs[j].0)]);
      short, long, fails := short + s, long + l, fails || f;
      j := j + 1;
    }
    assert procs[..j] == procs;
  }

  /** One more segment extends both reports by that segment's lines. */
  lemma ReportStep(results: Results, logPaths: map<(string, string), LogPaths>, refCommit: string, i: nat)
    requires i < |results| && HasPaths(results, logPaths)
    ensures HasPaths(results[..i], logPaths) && HasPaths(results[..i + 1], logPaths)
    ensures forall j :: 0 <= j < |results[i].1| ==> (results[i].0, results[i].1[j].0) in logPaths
    ensures ShortReport(results[..i + 1], logPaths) ==
      ShortReport(results[..i], logPaths) + SegmentShort(results[i].0, results[i].1, logPaths)
    ensures LongReport(results[..i + 1], logPaths, refCommit) ==
      LongReport(results[..i], logPaths, refCommit) + SegmentLong(results[i].0, results[i].1, logPaths)
    ensures AnyFails(results[..i + 1]) <==>
      AnyFails(results[..i]) || exists k :: 0 <= k < |results[i].1| && Fails(results[i].1[k].1)
  {
    assert results[..i + 1][..i] == results[..i] && results[..i + 1][i] == results[i];
    assert forall j :: 0 <= j < |results[i].1| ==> (results[i].0, results[i].1[j].0) in logPaths by {
      assert forall j :: 0 <= j < |results[i].1| ==> (results[i].0, results[i].1[j].0) in logPaths;
    }
    AnyFailsSnoc(results[..i], results[i]);
    assert results[..i] + [results[i]] == results[..i + 1];
  }

  /**
    `format_diff` of this module: the two reports, and whether the run
    failed, which it does exactly when some process raised or differed.
  */
  method FormatDiff(results: Results, logPaths: map<(string, string), LogPaths>, refCommit: string)
    returns (diff1: string, diff2: string, failed: bool)
    requires HasPaths(results, logPaths)
    ensures failed <==> AnyFails(results)
    ensures diff1 == ShortReport(results, logPaths)
    ensures diff2 == LongReport(results, logPaths, refCommit)
  {
    diff1, diff2 := "", "";
    diff2 := diff2 + "***** tested against commit " + refCommit + " *****\n";
    failed := false;
    var i := 0;
    while i < |results|
      invariant 0 <= i <= |results|
      invariant HasPaths(results[..i], logPaths)
      invariant diff1 == ShortReport(results[..i], logPaths)
      invariant diff2 == LongReport(results[..i], logPaths, refCommit)
      invariant failed <==> AnyFails(results[..i])
    {
      ReportStep(results, logPaths, refCommit, i);
      var s, l, f := SegmentReport(results[i].0, results[i].1, logPaths);
      diff1, diff2, failed := diff1 + s, diff2 + l, failed || f;
      i := i + 1;
    }
    assert results[..i] == results;
  }

  /** A run with one more segment fails when the earlier ones did or one of its processes does. */
  lemma AnyFailsSnoc(results: Results, last: (string, seq<(string, ProcResult)>))
    ensures AnyFails(results + [last]) <==>
      AnyFails(results) || exists k :: 0 <= k < |last.1| && Fails(last.1[k].1)
  {
    var all := results + [last];
    if AnyFails(all) && !AnyFails(results) {
      var i, j :| 0 <= i < |all| && 0 <= j < |all[i].1| && Fails(all[i].1[j].1);
      assert i == |results|;
    }
    if AnyFails(results) {
      var i, j :| 0 <= i < |results| && 0 <= j < |results[i].1| && Fails(results[i].1[j].1);
      assert all[i] == results[i];
    }
    if exists k :: 0 <= k < |last.1| && Fails(last.1[k].1) {
      var k :| 0 <= k < |last.1| && Fails(last.1[k].1);
      assert all[|results|] == last;
    }
  }
}
