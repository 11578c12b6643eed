/**
  The WiFi network list of the settings UI: how an access point's flags
  classify its security, how its connection state follows from the active
  access point, the order networks are shown in, the list of seen networks
  (one per SSID), the known connections keyed by their settings path, and
  the adapter state machine. Every NetworkManager read over DBus is an input;
  the calls the manager makes are returned as results.
*/
module WifiManager {
  import opened Common
  import Text

  // ---------------------------------------------------------------------
  // NetworkManager constants

  /** Access point flags (`NM80211ApFlags`). */
  const FlagsNone: bv32 := 0x0
  const FlagsPrivacy: bv32 := 0x1
  const FlagsWps: bv32 := 0x2

  /** Access point security flags (`NM80211ApSecurityFlags`). */
  const SecPairWep40: bv32 := 0x1
  const SecPairWep104: bv32 := 0x2
  const SecGroupWep40: bv32 := 0x10
  const SecGroupWep104: bv32 := 0x20
  const SecKeyMgmtPsk: bv32 := 0x100
  const SecKeyMgmt8021x: bv32 := 0x200

  /** The security flags that mark a network this UI can join with a password. */
  const SupportsWpa: bv32 := SecPairWep40 | SecPairWep104 | SecGroupWep40 | SecGroupWep104 | SecKeyMgmtPsk

  /** Device states and the state-change reason the manager reacts to. */
  const StateConnected := 100
  const StateNeedAuth := 60
  const ReasonWrongPassword := 8

  const WirelessDeviceIface := "org.freedesktop.NetworkManager.Device.Wireless"

  datatype SecurityType = Open | Wpa | Unsupported
  datatype ConnectedType = Disconnected | Connecting | Connected

  /** One network as the list shows it. */
  datatype Network = Network(path: string, ssid: string, strength: nat, connected: ConnectedType,
                             securityType: SecurityType, known: bool)

  /** What NetworkManager reports about one access point: its path, SSID, strength and the three flag words. */
  datatype AccessPoint = AccessPoint(path: string, ssid: string, strength: nat, flags: bv32, wpaFlags: bv32, rsnFlags: bv32)

  /** An active connection: its type and the addresses of its IPv4 configuration. */
  datatype ActiveConnection = ActiveConnection(kind: string, addresses: seq<string>)

  // ---------------------------------------------------------------------
  // Classification

  /**
    `getSecurityType`: open when no flag is set, or when WPS is advertised
    without any WPA-capable security flag; WPA when privacy is set, some
    WPA-capable flag is present and 802.1X is not; anything else is not
    supported. The WPA case needs no exclusion of the open one: it implies
    that the open test fails.
  */
  function GetSecurityType(flags: bv32, wpaFlags: bv32, rsnFlags: bv32): (r: SecurityType)
    ensures r == Open <==> flags == FlagsNone || (flags & FlagsWps != 0 && (wpaFlags | rsnFlags) & SupportsWpa == 0)
    ensures r == Wpa <==>
      flags & FlagsPrivacy != 0 && (wpaFlags | rsnFlags) & SupportsWpa != 0 && (wpaFlags | rsnFlags) & SecKeyMgmt8021x == 0
  {
    var wpaProps := wpaFlags | rsnFlags;
    if flags == FlagsNone || (flags & FlagsWps != 0 && wpaProps & SupportsWpa == 0) then Open
    else if flags & FlagsPrivacy != 0 && wpaProps & SupportsWpa != 0 && wpaProps & SecKeyMgmt8021x == 0 then Wpa
    else Unsupported
  }

  /** An enterprise (802.1X) network is never joined as a WPA network. */
  lemma EnterpriseNotWpa(flags: bv32, wpaFlags: bv32, rsnFlags: bv32)
    requires (wpaFlags | rsnFlags) & SecKeyMgmt8021x != 0
    ensures GetSecurityType(flags, wpaFlags, rsnFlags) != Wpa
  {
  }

  /** The SSID of the hotspot: "weedle", then "-" and the first four bytes of the dongle id when it has at least four. */
  function TetheringSsid(dongleId: string): (r: string)
    ensures Text.StartsWith(r, "weedle")
    ensures |dongleId| < 4 ==> r == "weedle"
    ensures |dongleId| >= 4 ==> |r| == 11 && r[6] == '-' && r[7..] == dongleId[..4]
  {
    if |dongleId| >= 4 then "weedle" + "-" + dongleId[..4] else "weedle"
  }

  /** The first address of the first wireless connection that has one. */
  function FirstWirelessAddress(conns: seq<ActiveConnection>): (r: string)
    ensures r != "" ==> exists c :: c in conns && c.kind == "802-11-wireless" && |c.addresses| > 0 && c.addresses[0] == r
    ensures (forall c :: c in conns ==> c.kind != "802-11-wireless" || c.addresses == []) ==> r == ""
    ensures forall k ::
      (0 <= k < |conns| && conns[k].kind == "802-11-wireless" && |conns[k].addresses| > 0 &&
       (forall m :: 0 <= m < k ==> conns[m].kind != "802-11-wireless" || conns[m].addresses == [])) ==>
      r == conns[k].addresses[0]
  {
    if conns == [] then ""
    else if conns[0].kind == "802-11-wireless" && |conns[0].addresses| > 0 then conns[0].addresses[0]
    else FirstWirelessAddress(conns[1..])
  }

  // ---------------------------------------------------------------------
  // Display order

  /**
    `compare_by_strength` as written: a connected network first, then a
    connecting one, then the stronger. It answers true for a connected
    network against itself.
  */
  function CompareByStrength(a: Network, b: Network): bool {
    if a.connected == Connected then true
    else if b.connected == Connected then false
    else if a.connected == Connecting then true
    else if b.connected == Connecting then false
    else a.strength > b.strength
  }

  /** The comparison is not irreflexive, so it is not the strict weak order a sort needs. */
  lemma CompareByStrengthNotIrreflexive(a: Network)
    requires a.connected == Connected || a.connected == Connecting
    ensures CompareByStrength(a, a)
  {
  }

  /** How early a connection state sorts. */
  function Rank(c: ConnectedType): nat {
    match c
    case Connected => 0
    case Connecting => 1
    case Disconnected => 2
  }

  /**
    The display order as intended: `a` before `b` when `a` is connected and
    `b` is not, else when `a` is connecting and `b` is neither, else when
    both are disconnected and `a` is stronger. It orders by rank first and
    then by strength.
  */
  function StrengthBefore(a: Network, b: Network): (r: bool)
    ensures r <==> Rank(a.connected) < Rank(b.connected) ||
                   (a.connected == Disconnected && b.connected == Disconnected && a.strength > b.strength)
  {
    if a.connected == Connected then b.connected != Connected
    else if b.connected == Connected then false
    else if a.connected == Connecting then b.connected != Connecting
    else if b.connected == Connecting then false
    else a.strength > b.strength
  }

  /** The intended order is a strict weak order: irreflexive, transitive, with transitive incomparability. */
  lemma StrengthBeforeOrder(a: Network, b: Network, c: Network)
    ensures !StrengthBefore(a, a)
    ensures StrengthBefore(a, b) && StrengthBefore(b, c) ==> StrengthBefore(a, c)
    ensures !StrengthBefore(a, b) && !StrengthBefore(b, a) && !StrengthBefore(b, c) && !StrengthBefore(c, b) ==>
      !StrengthBefore(a, c) && !StrengthBefore(c, a)
  {
  }

  /** No network is put after one it should come before. */
  predicate SortedByStrength(s: seq<Network>) {
    forall i, j :: 0 <= i < j < |s| ==> !StrengthBefore(s[j], s[i])
  }

  function InsertByStrength(x: Network, s: seq<Network>): (r: seq<Network>)
    ensures |r| == |s| + 1
    ensures forall n :: n in r <==> n in s || n == x
    ensures multiset(r) == multiset(s) + multiset{x}
  {
    if s == [] then [x]
    else if StrengthBefore(x, s[0]) then [x] + s
    else
      assert s == [s[0]] + s[1..];
      [s[0]] + InsertByStrength(x, s[1..])
  }

  lemma {:induction false} InsertByStrengthSorted(x: Network, s: seq<Network>)
    requires SortedByStrength(s)
    ensures SortedByStrength(InsertByStrength(x, s))
  {
    if s != [] {
      var r := InsertByStrength(x, s);
      if StrengthBefore(x, s[0]) {
        forall j | 0 < j < |r| ensures !StrengthBefore(r[j], r[0]) {
          assert r[j] == s[j - 1];
          if j > 1 {
            assert !StrengthBefore(s[j - 1], s[0]);
          }
        }
      } else {
        var t := InsertByStrength(x, s[1..]);
        assert SortedByStrength(s[1..]);
        InsertByStrengthSorted(x, s[1..]);
        forall j | 0 <= j < |t| ensures !StrengthBefore(t[j], s[0]) {
          assert t[j] in t;
          if t[j] != x {
            var k :| 0 <= k < |s[1..]| && s[1..][k] == t[j];
            assert s[k + 1] == t[j];
          }
        }
        assert r == [s[0]] + t;
      }
    }
  }

  /** The list in display order: an insertion sort under the intended order. */
  function SortByStrength(s: seq<Network>): (r: seq<Network>)
    ensures |r| == |s| && multiset(r) == multiset(s)
  {
    if s == [] then []
    else
      assert s == [s[0]] + s[1..];
      InsertByStrength(s[0], SortByStrength(s[1..]))
  }

  /** The sorted list is in display order. */
  lemma {:induction false} SortByStrengthSorted(s: seq<Network>)
    ensures SortedByStrength(SortByStrength(s))
  {
    if s != [] {
      SortByStrengthSorted(s[1..]);
      InsertByStrengthSorted(s[0], SortByStrength(s[1..]));
    }
  }

  // ---------------------------------------------------------------------
  // The list of seen networks

  /** No two networks of the list share an SSID, and none has an empty SSID. */
  predicate UniqueSsids(s: seq<Network>) {
    (forall i, j :: 0 <= i < j < |s| ==> s[i].ssid != s[j].ssid) && forall n :: n in s ==> n.ssid != ""
  }

  /** The list has a network with this SSID (`std::find_if` on the SSID). */
  predicate HasSsid(s: seq<Network>, ssid: string) {
    exists n :: n in s && n.ssid == ssid
  }

  /** A network with a new, non-empty SSID can go at the end of a list with unique SSIDs. */
  lemma UniqueSnoc(a: seq<Network>, x: Network)
    requires UniqueSsids(a) && x.ssid != "" && !HasSsid(a, x.ssid)
    ensures UniqueSsids(a + [x])
  {
    var r := a + [x];
    forall i, j | 0 <= i < j < |r| ensures r[i].ssid != r[j].ssid {
      assert r[i] == a[i];
      if j == |a| {
        assert a[i] in a;
      } else {
        assert r[j] == a[j];
      }
    }
  }

  /** ... or at the front. */
  lemma UniqueCons(x: Network, a: seq<Network>)
    requires UniqueSsids(a) && x.ssid != "" && !HasSsid(a, x.ssid)
    ensures UniqueSsids([x] + a)
  {
    var r := [x] + a;
    forall i, j | 0 <= i < j < |r| ensures r[i].ssid != r[j].ssid {
      assert r[j] == a[j - 1];
      if i == 0 {
        assert a[j - 1] in a;
      } else {
        assert r[i] == a[i - 1];
      }
    }
  }

  /** The tail of a list with unique SSIDs has unique SSIDs. */
  lemma UniqueTail(a: seq<Network>)
    requires UniqueSsids(a) && a != []
    ensures UniqueSsids(a[1..]) && !HasSsid(a[1..], a[0].ssid)
  {
    assert forall n :: n in a[1..] ==> n in a;
    forall n | n in a[1..] ensures n.ssid != a[0].ssid {
      var k :| 0 <= k < |a[1..]| && a[1..][k] == n;
      assert a[k + 1] == n;
    }
  }

  /** Inserting a network whose SSID is new keeps SSIDs unique. */
  lemma {:induction false} InsertKeepsUnique(x: Network, s: seq<Network>)
    requires UniqueSsids(s) && x.ssid != "" && !HasSsid(s, x.ssid)
    ensures UniqueSsids(InsertByStrength(x, s))
  {
    if s == [] {
      UniqueCons(x, s);
    } else if StrengthBefore(x, s[0]) {
      UniqueCons(x, s);
    } else {
      UniqueTail(s);
      assert !HasSsid(s[1..], x.ssid) by {
        assert forall n :: n in s[1..] ==> n in s;
      }
      InsertKeepsUnique(x, s[1..]);
      var t := InsertByStrength(x, s[1..]);
      assert !HasSsid(t, s[0].ssid) by {
        assert s[0] in s;
      }
      assert s[0] in s;
      UniqueCons(s[0], t);
    }
  }

  /** Sorting keeps SSIDs unique. */
  lemma {:induction false} SortKeepsUnique(s: seq<Network>)
    requires UniqueSsids(s)
    ensures UniqueSsids(SortByStrength(s))
  {
    if s != [] {
      UniqueTail(s);
      SortKeepsUnique(s[1..]);
      var t := SortByStrength(s[1..]);
      assert !HasSsid(t, s[0].ssid) by {
        forall n | n in t ensures n.ssid != s[0].ssid {
          assert n in multiset(s[1..]);
        }
      }
      assert s[0] in s;
      InsertKeepsUnique(s[0], t);
    }
  }

  /** The list without the networks at `path`, the others in their order (`erase(remove_if(...))`). */
  function WithoutPath(s: seq<Network>, path: string): seq<Network> {
    if s == [] then []
    else
      var n := |s| - 1;
      WithoutPath(s[..n], path) + (if s[n].path == path then [] else [s[n]])
  }

  /** Removal keeps exactly the networks at other paths. */
  lemma {:induction false} WithoutPathMembers(s: seq<Network>, path: string)
    ensures forall x :: x in WithoutPath(s, path) <==> x in s && x.path != path
  {
    if s != [] {
      var n := |s| - 1;
      WithoutPathMembers(s[..n], path);
      assert s == s[..n] + [s[n]];
    }
  }

  /** Removal works part by part: the order of the remaining networks is kept. */
  lemma {:induction false} WithoutPathAppend(a: seq<Network>, b: seq<Network>, path: string)
    ensures WithoutPath(a + b, path) == WithoutPath(a, path) + WithoutPath(b, path)
    decreases |b|
  {
    if b == [] {
      assert a + b == a;
    } else {
      var n := |b| - 1;
      assert (a + b)[..|a + b| - 1] == a + b[..n];
      WithoutPathAppend(a, b[..n], path);
    }
  }

  /** Removal keeps SSIDs unique. */
  lemma {:induction false} WithoutPathUnique(s: seq<Network>, path: string)
    requires UniqueSsids(s)
    ensures UniqueSsids(WithoutPath(s, path))
  {
    if s != [] {
      var n := |s| - 1;
      var prefix := s[..n];
      assert UniqueSsids(prefix) by {
        assert forall x :: x in prefix ==> x in s;
      }
      WithoutPathUnique(prefix, path);
      if s[n].path != path {
        WithoutPathMembers(prefix, path);
        assert !HasSsid(WithoutPath(prefix, path), s[n].ssid) by {
          forall x | x in WithoutPath(prefix, path) ensures x.ssid != s[n].ssid {
            var k :| 0 <= k < n && prefix[k] == x;
            assert s[k] == x;
          }
        }
        assert s[n] in s;
        UniqueSnoc(WithoutPath(prefix, path), s[n]);
      }
    }
  }

  // ---------------------------------------------------------------------
  // What a network's entry depends on

  /** The manager's view of the adapter: the active access point, the network being joined, the known connections. */
  datatype Link = Link(activeAp: string, connecting: string, known: map<string, string>)

  /** `getConnectedType`: disconnected unless at the active access point; there, connecting while it is the network being joined. */
  function GetConnectedType(link: Link, path: string, ssid: string): (r: ConnectedType)
    ensures r == Disconnected <==> path != link.activeAp
    ensures r == Connecting <==> path == link.activeAp && ssid == link.connecting
    ensures r == Connected <==> path == link.activeAp && ssid != link.connecting
  {
    if path != link.activeAp then Disconnected
    else if ssid == link.connecting then Connecting
    else Connected
  }

  /** Some known connection has this SSID. */
  ghost predicate HasConnection(known: map<string, string>, ssid: string) {
    exists p :: p in known && known[p] == ssid
  }

  /**
    The SSID is known: some connection has it and the lowest such path is
    not empty (an empty path is what "not found" looks like).
  */
  ghost predicate Known(known: map<string, string>, ssid: string) {
    HasConnection(known, ssid) && !("" in known && known[""] == ssid)
  }

  /** `path` is the first connection path, in path order, whose SSID is `ssid`. */
  ghost predicate FirstPathFor(known: map<string, string>, ssid: string, path: string) {
    path in known && known[path] == ssid &&
    forall q :: q in known && known[q] == ssid ==> q == path || Text.LexLess(path, q)
  }

  /** The network an access point is shown as. */
  ghost function NetworkOf(link: Link, ap: AccessPoint): Network {
    Network(ap.path, ap.ssid, ap.strength, GetConnectedType(link, ap.path, ap.ssid),
            GetSecurityType(ap.flags, ap.wpaFlags, ap.rsnFlags), Known(link.known, ap.ssid))
  }

  /** The list after adding an access point: unchanged for an empty or already seen SSID, else one more network at the end. */
  ghost function Added(link: Link, s: seq<Network>, ap: AccessPoint): seq<Network> {
    if ap.ssid == "" || HasSsid(s, ap.ssid) then s else s + [NetworkOf(link, ap)]
  }

  /** The list after adding several access points in turn. */
  ghost function AddedAll(link: Link, s: seq<Network>, aps: seq<AccessPoint>): seq<Network> {
    if aps == [] then s else Added(link, AddedAll(link, s, aps[..|aps| - 1]), aps[|aps| - 1])
  }

  /** A network with updated strength, connection state and known flag. */
  ghost function Refreshed(link: Link, n: Network, strength: nat): Network {
    n.(strength := strength, connected := GetConnectedType(link, n.path, n.ssid), known := Known(link.known, n.ssid))
  }

  /** Every network of the list refreshed with its new strength. */
  ghost function RefreshedAll(link: Link, s: seq<Network>, strengths: seq<nat>): (r: seq<Network>)
    requires |strengths| == |s|
    ensures |r| == |s| && forall j :: 0 <= j < |s| ==> r[j] == Refreshed(link, s[j], strengths[j])
  {
    if s == [] then []
    else RefreshedAll(link, s[..|s| - 1], strengths[..|s| - 1]) + [Refreshed(link, s[|s| - 1], strengths[|s| - 1])]
  }

  /** The WPA part of a new connection's settings. */
  datatype WpaSecurity = WpaSecurity(keyMgmt: string, authAlg: string, psk: string)

  /**
    The settings `connect` hands to NetworkManager's AddConnection for a new
    connection (its random UUID is not modelled).
  */
  datatype ConnectionSettings = ConnectionSettings(
    kind: string, id: string, autoconnectRetries: int, ssid: string, mode: string,
    security: Option<WpaSecurity>, ipv4Method: string, ipv6Method: string)

  /**
    The settings of a new connection to `ssid`: a wireless infrastructure
    connection named after the SSID that is not retried automatically, with
    WPA-PSK and the password as its key exactly for a WPA network, IPv4 set up
    automatically and IPv6 ignored. The user name is not used.
  */
  function ConnectionFor(ssid: string, username: string, password: string, security: SecurityType): (c: ConnectionSettings)
    ensures c.kind == "802-11-wireless" && c.mode == "infrastructure" && c.autoconnectRetries == 0
    ensures c.ssid == ssid && c.id == "openpilot connection " + ssid
    ensures c.security.Some? <==> security == Wpa
    ensures c.security.Some? ==> c.security.value == WpaSecurity("wpa-psk", "open", password)
    ensures c.ipv4Method == "auto" && c.ipv6Method == "ignore"
  {
    ConnectionSettings("802-11-wireless", "openpilot connection " + ssid, 0, ssid, "infrastructure",
      if security == Wpa then Some(WpaSecurity("wpa-psk", "open", password)) else None,
      "auto", "ignore")
  }

  /** The password reaches the settings only for a WPA network, and the settings never depend on the user name. */
  lemma ConnectionForSecret(ssid: string, u1: string, u2: string, p1: string, p2: string, security: SecurityType)
    ensures security != Wpa ==> ConnectionFor(ssid, u1, p1, security) == ConnectionFor(ssid, u2, p2, security)
    ensures security == Wpa && p1 != p2 ==> ConnectionFor(ssid, u1, p1, security) != ConnectionFor(ssid, u2, p2, security)
  {
    if security == Wpa && p1 != p2 {
      assert ConnectionFor(ssid, u1, p1, security).security.value.psk != ConnectionFor(ssid, u2, p2, security).security.value.psk;
    }
  }

  /** Refreshing keeps every network's SSID, so SSIDs stay unique. */
  lemma RefreshedUnique(link: Link, s: seq<Network>, strengths: seq<nat>)
    requires |strengths| == |s| && UniqueSsids(s)
    ensures UniqueSsids(RefreshedAll(link, s, strengths))
  {
    var r := RefreshedAll(link, s, strengths);
    assert forall j :: 0 <= j < |r| ==> r[j].ssid == s[j].ssid;
    forall x | x in r ensures x.ssid != "" {
      var j :| 0 <= j < |r| && r[j] == x;
      assert s[j] in s;
    }
  }

  // ---------------------------------------------------------------------
  // The manager

  class WifiManager {
    var seenNetworks: seq<Network>
    /** Known connections: settings path to SSID, iterated in path order like a `QMap`. */
    var knownConnections: map<string, string>
    var activeAp: string
    var connectingToNetwork: string
    var rawAdapterState: int
    var tetheringSsid: string

    /** The seen networks keep one entry per non-empty SSID. */
    ghost predicate Valid()
      reads this`seenNetworks
    {
      UniqueSsids(seenNetworks)
    }

    /**
      The manager once NetworkManager has reported the adapter state, the
      active access point and the known connections; access points are added
      afterwards.
    */
    constructor (adapterState: int, ap: string, known: map<string, string>, dongleId: string)
      ensures Valid()
      ensures seenNetworks == [] && knownConnections == known && activeAp == ap
      ensures connectingToNetwork == "" && rawAdapterState == adapterState
      ensures tetheringSsid == TetheringSsid(dongleId)
    {
      seenNetworks := [];
      knownConnections := known;
      activeAp := ap;
      connectingToNetwork := "";
      rawAdapterState := adapterState;
      tetheringSsid := TetheringSsid(dongleId);
    }

    /** The state a network's entry depends on. */
    function Status(): Link
      reads this`activeAp, this`connectingToNetwork, this`knownConnections
    {
      Link(activeAp, connectingToNetwork, knownConnections)
    }

    /**
      `getConnectionPath`: the connections in path order, the first whose
      SSID matches; an empty path when none does.
    */
    method GetConnectionPath(ssid: string) returns (path: string)
      ensures HasConnection(knownConnections, ssid) ==> FirstPathFor(knownConnections, ssid, path)
      ensures !HasConnection(knownConnections, ssid) ==> path == ""
    {
      var keys := Text.SortedElements(knownConnections.Keys);
      var i := 0;
      while i < |keys|
        invariant 0 <= i <= |keys|
        invariant forall j :: 0 <= j < i ==> knownConnections[keys[j]] != ssid
      {
        if knownConnections[keys[i]] == ssid {
          forall q | q in knownConnections && knownConnections[q] == ssid ensures q == keys[i] || Text.LexLess(keys[i], q) {
            var m :| 0 <= m < |keys| && keys[m] == q;
            assert m >= i;
          }
          return keys[i];
        }
        i := i + 1;
      }
      forall p | p in knownConnections ensures knownConnections[p] != ssid {
        var m :| 0 <= m < |keys| && keys[m] == p;
      }
      return "";
    }

    /** `isKnownConnection`: the connection path found for the SSID is not empty. */
    method IsKnownConnection(ssid: string) returns (known: bool)
      ensures known <==> Known(knownConnections, ssid)
    {
      var path := GetConnectionPath(ssid);
      known := path != "";
      if HasConnection(knownConnections, ssid) && "" in knownConnections && knownConnections[""] == ssid {
        assert path == "" || Text.LexLess(path, "");
      }
    }

    /** `forgetConnection`: the path whose connection is deleted, if the SSID has one. */
    method ForgetConnection(ssid: string) returns (deleted: Option<string>)
      ensures deleted.Some? <==> Known(knownConnections, ssid)
      ensures deleted.Some? ==> FirstPathFor(knownConnections, ssid, deleted.value)
    {
      var known := IsKnownConnection(ssid);
      var path := GetConnectionPath(ssid);
      deleted := if path != "" then Some(path) else None;
    }

    /** `activateWifiConnection`: a known SSID becomes the network being joined; the path activated is returned. */
    method ActivateWifiConnection(ssid: string) returns (activated: Option<string>)
      modifies this
      ensures activated.Some? <==> Known(old(knownConnections), ssid)
      ensures activated.Some? ==> connectingToNetwork == ssid && FirstPathFor(knownConnections, ssid, activated.value)
      ensures activated.None? ==> connectingToNetwork == old(connectingToNetwork)
      ensures seenNetworks == old(seenNetworks) && knownConnections == old(knownConnections)
      ensures activeAp == old(activeAp) && rawAdapterState == old(rawAdapterState) && tetheringSsid == old(tetheringSsid)
    {
      var known := IsKnownConnection(ssid);
      var path := GetConnectionPath(ssid);
      if path != "" {
        connectingToNetwork := ssid;
        activated := Some(path);
      } else {
        activated := None;
      }
    }

    /**
      `connect`: the network becomes the one being joined, any connection
      already known for its SSID is deleted, and the settings of a new
      connection for it are returned, as they are sent to AddConnection.
      The one- and two-argument forms pass empty texts for the missing
      user name and password.
    */
    method Connect(n: Network, username: string, password: string) returns (deleted: Option<string>, settings: ConnectionSettings)
      modifies this
      ensures connectingToNetwork == n.ssid
      ensures deleted.Some? <==> Known(knownConnections, n.ssid)
      ensures deleted.Some? ==> FirstPathFor(knownConnections, n.ssid, deleted.value)
      ensures settings == ConnectionFor(n.ssid, username, password, n.securityType)
      ensures seenNetworks == old(seenNetworks) && knownConnections == old(knownConnections)
      ensures activeAp == old(activeAp) && rawAdapterState == old(rawAdapterState) && tetheringSsid == old(tetheringSsid)
    {
      connectingToNetwork := n.ssid;
      deleted := ForgetConnection(n.ssid);
      settings := ConnectionFor(n.ssid, username, password, n.securityType);
    }

    /**
      `stateChange`: the new state is always stored. A wrong password while
      authenticating forgets the network being joined and reports it; reaching
      the connected state ends the joining.
    */
    method StateChange(newState: int, previousState: int, reason: int)
      returns (deleted: Option<string>, wrongPassword: Option<string>)
      modifies this
      ensures rawAdapterState == newState
      ensures newState == StateNeedAuth && reason == ReasonWrongPassword ==>
        wrongPassword == Some(old(connectingToNetwork)) && connectingToNetwork == old(connectingToNetwork) &&
        (deleted.Some? <==> Known(old(knownConnections), old(connectingToNetwork))) &&
        (deleted.Some? ==> FirstPathFor(old(knownConnections), old(connectingToNetwork), deleted.value))
      ensures newState == StateConnected ==> connectingToNetwork == "" && deleted.None? && wrongPassword.None?
      ensures newState == StateConnected ==> forall ssid :: ssid != "" ==> GetConnectedType(Status(), activeAp, ssid) == Connected
      ensures newState != StateConnected && !(newState == StateNeedAuth && reason == ReasonWrongPassword) ==>
        connectingToNetwork == old(connectingToNetwork) && deleted.None? && wrongPassword.None?
      ensures seenNetworks == old(seenNetworks) && knownConnections == old(knownConnections)
      ensures activeAp == old(activeAp) && tetheringSsid == old(tetheringSsid)
    {
      rawAdapterState := newState;
      deleted, wrongPassword := None, None;
      if newState == StateNeedAuth && reason == ReasonWrongPassword {
        deleted := ForgetConnection(connectingToNetwork);
        wrongPassword := Some(connectingToNetwork);
      } else if newState == StateConnected {
        connectingToNetwork := "";
      }
    }

    /** `propertyChange`: a new active access point of the wireless device is recorded. */
    method PropertyChange(iface: string, props: map<string, string>)
      modifies this
      ensures iface == WirelessDeviceIface && "ActiveAccessPoint" in props ==> activeAp == props["ActiveAccessPoint"]
      ensures !(iface == WirelessDeviceIface && "ActiveAccessPoint" in props) ==> activeAp == old(activeAp)
      ensures seenNetworks == old(seenNetworks) && knownConnections == old(knownConnections)
      ensures connectingToNetwork == old(connectingToNetwork) && rawAdapterState == old(rawAdapterState)
      ensures tetheringSsid == old(tetheringSsid)
    {
      if iface == WirelessDeviceIface && "ActiveAccessPoint" in props {
        activeAp := props["ActiveAccessPoint"];
      }
    }

    /** `get_ipv4_address`: empty unless connected; then the first address of the first wireless connection that has one. */
    method GetIpv4Address(conns: seq<ActiveConnection>) returns (ip: string)
      ensures rawAdapterState != StateConnected ==> ip == ""
      ensures rawAdapterState == StateConnected ==> ip == FirstWirelessAddress(conns)
    {
      if rawAdapterState != StateConnected {
        return "";
      }
      var k := 0;
      while k < |conns|
        invariant 0 <= k <= |conns|
        invariant FirstWirelessAddress(conns) == FirstWirelessAddress(conns[k..])
      {
        assert conns[k..][1..] == conns[k + 1..];
        if conns[k].kind == "802-11-wireless" && |conns[k].addresses| > 0 {
          return conns[k].addresses[0];
        }
        k := k + 1;
      }
      return "";
    }

    /** `addAccessPoint`: a network with a new, non-empty SSID is appended; SSIDs stay unique. */
    method AddAccessPoint(ap: AccessPoint)
      requires Valid()
      modifies this
      ensures Valid()
      ensures seenNetworks == Added(Status(), old(seenNetworks), ap)
      ensures knownConnections == old(knownConnections) && activeAp == old(activeAp)
      ensures connectingToNetwork == old(connectingToNetwork) && rawAdapterState == old(rawAdapterState)
      ensures tetheringSsid == old(tetheringSsid)
    {
      var seen := false;
      var k := 0;
      while k < |seenNetworks|
        invariant 0 <= k <= |seenNetworks|
        invariant seen <==> exists j :: 0 <= j < k && seenNetworks[j].ssid == ap.ssid
      {
        seen := seen || seenNetworks[k].ssid == ap.ssid;
        k := k + 1;
      }
      if ap.ssid == "" || seen {
        return;
      }
      var known := IsKnownConnection(ap.ssid);
      var network := Network(ap.path, ap.ssid, ap.strength, GetConnectedType(Status(), ap.path, ap.ssid),
                             GetSecurityType(ap.flags, ap.wpaFlags, ap.rsnFlags), known);
      seenNetworks := seenNetworks + [network];
    }

    /** `removeAccessPoint`: every network at the path goes, the rest keep their order; SSIDs stay unique. */
    method RemoveAccessPoint(path: string)
      requires Valid()
      modifies this
      ensures Valid()
      ensures seenNetworks == WithoutPath(old(seenNetworks), path)
      ensures knownConnections == old(knownConnections) && activeAp == old(activeAp)
      ensures connectingToNetwork == old(connectingToNetwork) && rawAdapterState == old(rawAdapterState)
      ensures tetheringSsid == old(tetheringSsid)
    {
      WithoutPathUnique(seenNetworks, path);
      seenNetworks := WithoutPath(seenNetworks, path);
    }

    /** `initNetworks`: every access point added in turn, then the list put in display order. */
    method InitNetworks(aps: seq<AccessPoint>)
      requires Valid()
      modifies this
      ensures Valid()
      ensures seenNetworks == SortByStrength(AddedAll(Status(), old(seenNetworks), aps))
      ensures multiset(seenNetworks) == multiset(AddedAll(Status(), old(seenNetworks), aps))
      ensures SortedByStrength(seenNetworks)
      ensures knownConnections == old(knownConnections) && activeAp == old(activeAp)
      ensures connectingToNetwork == old(connectingToNetwork) && rawAdapterState == old(rawAdapterState)
      ensures tetheringSsid == old(tetheringSsid)
    {
      var k := 0;
      while k < |aps|
        invariant 0 <= k <= |aps|
        invariant Valid()
        invariant seenNetworks == AddedAll(Status(), old(seenNetworks), aps[..k])
        invariant knownConnections == old(knownConnections) && activeAp == old(activeAp)
        invariant connectingToNetwork == old(connectingToNetwork) && rawAdapterState == old(rawAdapterState)
        invariant tetheringSsid == old(tetheringSsid)
      {
        assert aps[..k + 1][..k] == aps[..k];
        AddAccessPoint(aps[k]);
        k := k + 1;
      }
      assert aps[..k] == aps;
      SortKeepsUnique(seenNetworks);
      SortByStrengthSorted(seenNetworks);
      seenNetworks := SortByStrength(seenNetworks);
    }

    /** The refresh loop: each network with its new strength, connection state and known flag. */
    method RefreshAll(seen: seq<Network>, strengths: seq<nat>) returns (updated: seq<Network>)
      requires |strengths| == |seen|
      ensures updated == RefreshedAll(Status(), seen, strengths)
    {
      updated := [];
      var k := 0;
      while k < |seen|
        invariant 0 <= k <= |seen| && |updated| == k
        invariant forall j :: 0 <= j < k ==> updated[j] == Refreshed(Status(), seen[j], strengths[j])
      {
        var n := seen[k];
        var known := IsKnownConnection(n.ssid);
        updated := updated + [n.(strength := strengths[k], connected := GetConnectedType(Status(), n.path, n.ssid), known := known)];
        k := k + 1;
      }
    }

    /**
      `updateNetworks`: every network's strength (read anew), connection
      state and known flag refreshed, then the list put in display order.
    */
    method UpdateNetworks(strengths: seq<nat>)
      requires Valid() && |strengths| == |seenNetworks|
      modifies this
      ensures Valid() && SortedByStrength(seenNetworks)
      ensures seenNetworks == SortByStrength(RefreshedAll(Status(), old(seenNetworks), strengths))
      ensures multiset(seenNetworks) == multiset(RefreshedAll(Status(), old(seenNetworks), strengths))
      ensures knownConnections == old(knownConnections) && activeAp == old(activeAp)
      ensures connectingToNetwork == old(connectingToNetwork) && rawAdapterState == old(rawAdapterState)
      ensures tetheringSsid == old(tetheringSsid)
    {
      var updated := RefreshAll(seenNetworks, strengths);
      RefreshedUnique(Status(), seenNetworks, strengths);
      SortKeepsUnique(updated);
      SortByStrengthSorted(updated);
      var sorted := SortByStrength(updated);
      assert UniqueSsids(sorted) && SortedByStrength(sorted);
      seenNetworks := sorted;
    }

    /** `connectionRemoved`: the connection at the path is no longer known; the others stay. */
    method ConnectionRemoved(path: string)
      modifies this
      ensures path !in knownConnections
      ensures forall p :: p != path ==> (p in knownConnections <==> p in old(knownConnections))
      ensures forall p :: p in knownConnections ==> knownConnections[p] == old(knownConnections)[p]
      ensures seenNetworks == old(seenNetworks) && activeAp == old(activeAp)
      ensures connectingToNetwork == old(connectingToNetwork) && rawAdapterState == old(rawAdapterState)
      ensures tetheringSsid == old(tetheringSsid)
    {
      knownConnections := knownConnections - {path};
    }

    /**
      `newConnection`: the connection is recorded under its path, then
      activated: its SSID is now the network being joined, unless an empty
      path is recorded with the same SSID.
    */
    method NewConnection(path: string, ssid: string) returns (activated: Option<string>)
      modifies this
      ensures knownConnections == old(knownConnections)[path := ssid]
      ensures path != "" && !("" in old(knownConnections) && old(knownConnections)[""] == ssid) ==>
        activated.Some? && connectingToNetwork == ssid
      ensures activated.None? ==> connectingToNetwork == old(connectingToNetwork)
      ensures seenNetworks == old(seenNetworks) && activeAp == old(activeAp)
      ensures rawAdapterState == old(rawAdapterState) && tetheringSsid == old(tetheringSsid)
    {
      knownConnections := knownConnections[path := ssid];
      assert knownConnections[path] == ssid;
      activated := ActivateWifiConnection(ssid);
    }
  }
}
