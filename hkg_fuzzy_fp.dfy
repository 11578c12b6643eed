/**
  Platform codes of Hyundai/Kia/Genesis front-radar firmware versions: after
  the first F1 00 marker, the next four bytes hold an upper-case code and a
  variant, and a car's firmware list yields the set of (code, variant) pairs.
*/
module HkgFuzzyFp {
  import opened Common
  import Text

  datatype Ecu = FwdCamera | FwdRadar | OtherEcu(name: string)

  /** A firmware query key: the ECU, its request address and optional sub-address. */
  datatype EcuKey = EcuKey(ecu: Ecu, addr: int, subAddr: Option<int>)

  /** The front radar, whose versions are parsed. */
  const RadarKey := EcuKey(FwdRadar, 0x7d0, None)

  type Firmware = seq<Byte>

  /** One parsed platform code: the code bytes and the variant bytes. */
  type PlatformCode = (seq<Byte>, seq<Byte>)

  predicate IsUpperByte(b: Byte) { 'A' as int <= b as int <= 'Z' as int }
  predicate IsCodeByte(b: Byte) { IsUpperByte(b) || '0' as int <= b as int <= '9' as int }

  /** Index of the first F1 00 pair (Python `bytes.index(b'\xf1\x00')`). */
  function FindMarker(fw: Firmware): (r: Option<nat>)
    ensures r.Some? ==> r.value + 1 < |fw| && fw[r.value] == 0xf1 && fw[r.value + 1] == 0x00
    ensures r.Some? ==> forall i :: 0 <= i < r.value ==> !(fw[i] == 0xf1 && fw[i + 1] == 0x00)
    ensures r.None? ==> forall i :: 0 <= i < |fw| - 1 ==> !(fw[i] == 0xf1 && fw[i + 1] == 0x00)
  {
    if |fw| < 2 then None
    else if fw[0] == 0xf1 && fw[1] == 0x00 then Some(0)
    else
      match FindMarker(fw[1..])
      case None => None
      case Some(i) => Some(i + 1)
  }

  /** Length of the run of code bytes at the start of `bs`. */
  function CodeRun(bs: seq<Byte>): (n: nat)
    ensures n <= |bs|
    ensures forall i :: 0 <= i < n ==> IsCodeByte(bs[i])
    ensures n < |bs| ==> !IsCodeByte(bs[n])
  {
    if |bs| == 0 || !IsCodeByte(bs[0]) then 0 else 1 + CodeRun(bs[1..])
  }

  /**
    Length of the greedy match of `[A-Z]+[A-Z0-9]*` at the start of `bs`,
    or None when it does not start with an upper-case letter.
  */
  function MatchLength(bs: seq<Byte>): Option<nat>
  {
    if |bs| == 0 || !IsUpperByte(bs[0]) then None else Some(CodeRun(bs))
  }

  predicate IsSeparator(b: Byte) { b == '_' as int as Byte || b == ' ' as int as Byte }

  /** `bs` without the underscore and space bytes. */
  function RemoveSeparators(bs: seq<Byte>): (r: seq<Byte>)
    ensures |r| <= |bs|
    ensures forall b :: b in r <==> b in bs && b != '_' as int as Byte && b != ' ' as int as Byte
  {
    if bs == [] then [] else Kept(bs[0]) + RemoveSeparators(bs[1..])
  }

  /** No separator is left, and every other byte keeps its number of occurrences. */
  lemma {:induction false} RemoveSeparatorsCounts(bs: seq<Byte>)
    ensures forall b :: IsSeparator(b) ==> multiset(RemoveSeparators(bs))[b] == 0
    ensures forall b :: !IsSeparator(b) ==> multiset(RemoveSeparators(bs))[b] == multiset(bs)[b]
    decreases |bs|
  {
    if bs != [] {
      RemoveSeparatorsCounts(bs[1..]);
      assert bs == [bs[0]] + bs[1..];
      assert multiset(RemoveSeparators(bs)) == multiset(Kept(bs[0])) + multiset(RemoveSeparators(bs[1..]));
    }
  }

  /** A byte as the removal keeps it: gone when it is a separator. */
  function Kept(b: Byte): seq<Byte> {
    if IsSeparator(b) then [] else [b]
  }

  /** `bytes.replace(bytes([c]), b'')`: every occurrence of `c` deleted. */
  function Delete(bs: seq<Byte>, c: Byte): seq<Byte> {
    if bs == [] then [] else (if bs[0] == c then [] else [bs[0]]) + Delete(bs[1..], c)
  }

  /** Removal works piece by piece, so the kept bytes stay in their order. */
  lemma {:induction false} RemoveSeparatorsAppend(a: seq<Byte>, b: seq<Byte>)
    ensures RemoveSeparators(a + b) == RemoveSeparators(a) + RemoveSeparators(b)
    decreases |a|
  {
    if a != [] {
      assert (a + b)[0] == a[0] && (a + b)[1..] == a[1..] + b;
      RemoveSeparatorsAppend(a[1..], b);
      calc {
        RemoveSeparators(a + b);
        Kept(a[0]) + RemoveSeparators(a[1..] + b);
        Kept(a[0]) + (RemoveSeparators(a[1..]) + RemoveSeparators(b));
        { Text.ConcatAssoc(Kept(a[0]), RemoveSeparators(a[1..]), RemoveSeparators(b)); }
        (Kept(a[0]) + RemoveSeparators(a[1..])) + RemoveSeparators(b);
      }
    } else {
      assert a + b == b;
    }
  }

  /** Removing the separators is the source's two `replace` calls, underscores first, then spaces. */
  lemma {:induction false} RemoveSeparatorsIsReplaces(bs: seq<Byte>)
    ensures RemoveSeparators(bs) == Delete(Delete(bs, '_' as int as Byte), ' ' as int as Byte)
    decreases |bs|
  {
    if bs != [] {
      RemoveSeparatorsIsReplaces(bs[1..]);
      var u := '_' as int as Byte;
      var d := Delete(bs, u);
      var head := if bs[0] == u then [] else [bs[0]];
      assert Kept(bs[0]) == Delete(head, ' ' as int as Byte);
      assert d == head + Delete(bs[1..], u);
      DeleteAppend(head, Delete(bs[1..], u), ' ' as int as Byte);
    }
  }

  lemma {:induction false} DeleteAppend(a: seq<Byte>, b: seq<Byte>, c: Byte)
    ensures Delete(a + b, c) == Delete(a, c) + Delete(b, c)
    decreases |a|
  {
    if a != [] {
      assert (a + b)[1..] == a[1..] + b;
      DeleteAppend(a[1..], b, c);
    } else {
      assert a + b == b;
    }
  }

  /** The at most four bytes that follow the first marker. */
  function Window(fw: Firmware, marker: nat): (w: seq<Byte>)
    requires marker + 2 <= |fw|
    ensures |w| <= 4
    ensures |w| == if |fw| - marker - 2 < 4 then |fw| - marker - 2 else 4
    ensures w == fw[marker + 2..][..|w|]
    ensures forall k :: 0 <= k < |w| ==> w[k] == fw[marker + 2 + k]
  {
    var rest := fw[marker + 2..];
    if |rest| <= 4 then rest else rest[..4]
  }

  /** The platform code of one firmware version; a missing marker or a window not starting with a letter fails. */
  function GetPlatformCode(fw: Firmware): Result<PlatformCode>
  {
    match FindMarker(fw)
    case None => Err("subsection not found")
    case Some(i) =>
      var w := Window(fw, i);
      match MatchLength(w)
      case None => Err("no platform code")
      case Some(n) => Ok((w[..n], RemoveSeparators(w[n..])))
  }

  /**
    A parsed code is non-empty, starts with an upper-case letter, holds only
    upper-case letters and digits, and is followed by a byte that is neither
    (or by the end of the window). The variant holds no underscore or space,
    and code and variant together take at most four bytes.
  */
  lemma PlatformCodeShape(fw: Firmware)
    requires GetPlatformCode(fw).Ok?
    ensures var (code, variant) := GetPlatformCode(fw).value;
      |code| >= 1 && IsUpperByte(code[0]) &&
      (forall i :: 0 <= i < |code| ==> IsCodeByte(code[i])) &&
      |code| + |variant| <= 4 &&
      '_' as int as Byte !in variant && ' ' as int as Byte !in variant
    ensures var i := FindMarker(fw).value; var w := Window(fw, i); var code := GetPlatformCode(fw).value.0;
      code == w[..|code|] && (|code| < |w| ==> !IsCodeByte(w[|code|]))
  {
  }

  /** Bytes beyond the four after the marker never affect the result. */
  lemma PlatformCodeIgnoresTail(fw: Firmware, extra: seq<Byte>)
    requires FindMarker(fw).Some? && FindMarker(fw).value + 6 <= |fw|
    ensures GetPlatformCode(fw + extra) == GetPlatformCode(fw)
  {
    var i := FindMarker(fw).value;
    FindMarkerPrefix(fw, extra);
    assert (fw + extra)[i + 2..][..4] == fw[i + 2..][..4];
    assert Window(fw + extra, i) == Window(fw, i);
  }

  /** Appending bytes does not move a marker already found. */
  lemma {:induction false} FindMarkerPrefix(fw: Firmware, extra: seq<Byte>)
    requires FindMarker(fw).Some?
    ensures FindMarker(fw + extra) == FindMarker(fw)
  {
    if !(fw[0] == 0xf1 && fw[1] == 0x00) {
      assert (fw + extra)[1..] == fw[1..] + extra;
      FindMarkerPrefix(fw[1..], extra);
    }
  }

  /** A version without a marker cannot be parsed. */
  lemma MissingMarkerFails(fw: Firmware)
    requires forall i :: 0 <= i < |fw| - 1 ==> !(fw[i] == 0xf1 && fw[i + 1] == 0x00)
    ensures GetPlatformCode(fw).Err?
  {
  }

  /** One more firmware version read: its code joins the set, and all codes so far parsed. */
  lemma CodesStep(fws: seq<Firmware>, k: nat)
    requires k < |fws| && GetPlatformCode(fws[k]).Ok?
    requires forall fw :: fw in fws[..k] ==> GetPlatformCode(fw).Ok?
    ensures forall fw :: fw in fws[..k + 1] ==> GetPlatformCode(fw).Ok?
    ensures (set fw | fw in fws[..k + 1] :: GetPlatformCode(fw).value) ==
      (set fw | fw in fws[..k] :: GetPlatformCode(fw).value) + {GetPlatformCode(fws[k]).value}
  {
    assert fws[..k + 1] == fws[..k] + [fws[k]];
    assert forall fw :: fw in fws[..k + 1] <==> fw in fws[..k] || fw == fws[k];
  }

  /**
    `get_platform_codes`: the set of platform codes of every front-radar
    version of a car. A car without front-radar versions, or one version that
    cannot be parsed, is an error.
  */
  method GetPlatformCodes(carFw: map<EcuKey, seq<Firmware>>) returns (r: Result<set<PlatformCode>>)
    ensures RadarKey !in carFw ==> r.Err?
    ensures RadarKey in carFw ==>
      (r.Ok? <==> forall fw :: fw in carFw[RadarKey] ==> GetPlatformCode(fw).Ok?)
    ensures r.Ok? ==> r.value == set fw | fw in carFw[RadarKey] :: GetPlatformCode(fw).value
  {
    if RadarKey !in carFw {
      return Err("missing front radar versions");
    }
    var fws := carFw[RadarKey];
    var codes: set<PlatformCode> := {};
    var k := 0;
    while k < |fws|
      invariant 0 <= k <= |fws|
      invariant forall fw :: fw in fws[..k] ==> GetPlatformCode(fw).Ok?
      invariant codes == set fw | fw in fws[..k] :: GetPlatformCode(fw).value
    {
      var c := GetPlatformCode(fws[k]);
      if c.Err? {
        assert fws[k] in fws;
        return Err(c.reason);
      }
      CodesStep(fws, k);
      codes := codes + {c.value};
      k := k + 1;
    }
    assert fws[..k] == fws;
    return Ok(codes);
  }
}
