/**
  The generic helpers of the common utility header: clamp-and-rescale of an
  integer, the lower-case hex dump of a byte string, the exit flag set by
  signal handlers, and the move-only file descriptor holder.
*/
module Util {
  import opened Common
  import Text

  /** Clamp `x` into `[a1, a2]`: first raised to `a1`, then lowered to `a2`. */
  function Clamp(x: int, a1: int, a2: int): int {
    var y := if x < a1 then a1 else x;
    if y > a2 then a2 else y
  }

  /**
    `map_val` for an integral type: clamp `x` into `[a1, a2]`, then map it
    linearly onto `[b1, b2]` with C's truncating division. Dividing by
    `a2 - a1` needs the two ends apart.
  */
  function MapVal(x: int, a1: int, a2: int, b1: int, b2: int): int
    requires a2 != a1
  {
    var xc := Clamp(x, a1, a2);
    TruncDiv((xc - a1) * (b2 - b1), a2 - a1) + b1
  }

  /** With `a1 < a2` the clamp lands inside the input range and keeps values already in it. */
  lemma ClampInRange(x: int, a1: int, a2: int)
    requires a1 < a2
    ensures a1 <= Clamp(x, a1, a2) <= a2
    ensures a1 <= x <= a2 ==> Clamp(x, a1, a2) == x
  {
  }

  /** Values outside the input range are treated as its nearer end. */
  lemma MapValClamps(x: int, a1: int, a2: int, b1: int, b2: int)
    requires a1 < a2
    ensures x <= a1 ==> MapVal(x, a1, a2, b1, b2) == MapVal(a1, a1, a2, b1, b2)
    ensures x >= a2 ==> MapVal(x, a1, a2, b1, b2) == MapVal(a2, a1, a2, b1, b2)
  {
  }

  /** The input range's ends map exactly to the output range's ends. */
  lemma MapValEndpoints(a1: int, a2: int, b1: int, b2: int)
    requires a1 < a2
    ensures MapVal(a1, a1, a2, b1, b2) == b1
    ensures MapVal(a2, a1, a2, b1, b2) == b2
  {
    var ra, rb := a2 - a1, b2 - b1;
    TruncDivExact(0, ra);
    assert 0 * rb == 0 * ra;
    TruncDivExact(rb, ra);
    assert ra * rb == rb * ra;
  }

  lemma MulMonotone(a: int, b: int, c: int)
    requires a <= b && c >= 0
    ensures a * c <= b * c
  {
    assert b * c - a * c == (b - a) * c;
  }

  /** For `a1 < a2` every result lies between `b1` and `b2`, whichever of them is larger. */
  lemma MapValBetween(x: int, a1: int, a2: int, b1: int, b2: int)
    requires a1 < a2
    ensures b1 <= b2 ==> b1 <= MapVal(x, a1, a2, b1, b2) <= b2
    ensures b2 <= b1 ==> b2 <= MapVal(x, a1, a2, b1, b2) <= b1
  {
    var ra, rb := a2 - a1, b2 - b1;
    ClampInRange(x, a1, a2);
    var t := Clamp(x, a1, a2) - a1;
    var p := t * rb;
    var q := TruncDiv(p, ra);
    assert MapVal(x, a1, a2, b1, b2) == q + b1;
    if rb >= 0 {
      MulMonotone(0, t, rb);
      MulMonotone(t, ra, rb);
      BoundQuotient(q, rb, ra, p);
    } else if p == 0 {
      assert q == 0;
    } else {
      var m := -rb;
      MulMonotone(0, t, m);
      MulMonotone(t, ra, m);
      NegateProduct(t, m);
      NegateProduct(q, ra);
      BoundQuotient(-q, m, ra, -p);
    }
  }

  lemma NegateProduct(a: int, b: int)
    ensures a * -b == -(a * b) && (-a) * b == -(a * b)
  {
  }

  /** A truncated quotient of a number in `[0, n*m]` by `n` lies in `[0, m]`. */
  lemma BoundQuotient(q: int, m: int, n: int, p: int)
    requires n > 0 && m >= 0 && 0 <= p <= n * m
    requires 0 <= p - q * n < n
    ensures 0 <= q <= m
  {
    MulAtLeast(q, n);
    MulAtLeast(q - m, n);
    assert (q - m) * n == q * n - n * m;
  }

  /** The two lower-case hex digits of one byte, high nibble first. */
  function ByteHex(b: Byte): string {
    [Text.HexLower(b as int / 16), Text.HexLower(b as int % 16)]
  }

  /** `out` is the hex dump of `bytes`: two lower-case, zero-padded digits per byte, in input order. */
  predicate IsHexdumpOf(out: string, bytes: seq<Byte>) {
    |out| == 2 * |bytes| &&
    forall i :: 0 <= i < |bytes| ==> out[2 * i..2 * i + 2] == ByteHex(bytes[i])
  }

  /** `hexdump`: the bytes of a string as lower-case hexadecimal text. */
  method Hexdump(bytes: seq<Byte>) returns (out: string)
    ensures IsHexdumpOf(out, bytes)
  {
    out := "";
    var i := 0;
    while i < |bytes|
      invariant 0 <= i <= |bytes|
      invariant IsHexdumpOf(out, bytes[..i])
    {
      ghost var before := out;
      out := out + ByteHex(bytes[i]);
      assert forall k :: 0 <= k < i ==> out[2 * k..2 * k + 2] == before[2 * k..2 * k + 2];
      i := i + 1;
    }
    assert bytes[..i] == bytes;
  }

  /** Reads lower-case hex digit pairs back into bytes; None on an odd length or a non-digit. */
  function Unhex(s: string): Option<seq<Byte>>
  {
    if |s| == 0 then Some([])
    else if |s| == 1 then None
    else
      match (Text.HexValue(s[0]), Text.HexValue(s[1]), Unhex(s[2..]))
      case (Some(h), Some(l), Some(rest)) => Some([(h * 16 + l) as Byte] + rest)
      case _ => None
  }

  /** Reading back the two digits of one byte gives the byte. */
  lemma ByteHexValue(b: Byte)
    ensures Text.HexValue(ByteHex(b)[0]) == Some(b as int / 16)
    ensures Text.HexValue(ByteHex(b)[1]) == Some(b as int % 16)
  {
  }

  /** Dropping the first byte of a hex dump drops its first two digits. */
  lemma HexdumpTail(out: string, bytes: seq<Byte>)
    requires IsHexdumpOf(out, bytes) && |bytes| > 0
    ensures IsHexdumpOf(out[2..], bytes[1..])
  {
    forall i | 0 <= i < |bytes[1..]|
      ensures out[2..][2 * i..2 * i + 2] == ByteHex(bytes[1..][i])
    {
      assert out[2..][2 * i..2 * i + 2] == out[2 * (i + 1)..2 * (i + 1) + 2];
    }
  }

  /** Reading a hex dump back gives the original bytes. */
  lemma {:induction false} HexdumpRoundTrip(out: string, bytes: seq<Byte>)
    requires IsHexdumpOf(out, bytes)
    ensures Unhex(out) == Some(bytes)
  {
    if |bytes| > 0 {
      assert out[0..2] == ByteHex(bytes[0]);
      ByteHexValue(bytes[0]);
      HexdumpTail(out, bytes);
      HexdumpRoundTrip(out[2..], bytes[1..]);
      assert [bytes[0]] + bytes[1..] == bytes;
    }
  }

  /** Distinct byte strings have distinct hex dumps. */
  lemma HexdumpInjective(out: string, b1: seq<Byte>, b2: seq<Byte>)
    requires IsHexdumpOf(out, b1) && IsHexdumpOf(out, b2)
    ensures b1 == b2
  {
    HexdumpRoundTrip(out, b1);
    HexdumpRoundTrip(out, b2);
  }

  /** Linux signal numbers the exit handler is installed for. */
  const SIGINT := 2
  const SIGTERM := 15
  const SIGPWR := 30

  /**
    The process-wide exit flag. The source keeps its fields in static atomics
    shared by every handler object; one object stands for that shared state here.
  */
  class ExitHandler {
    var doExit: bool
    var signal: int
    var powerFailure: bool

    constructor ()
      ensures !doExit && signal == 0 && !powerFailure
    {
      doExit, signal, powerFailure := false, 0, false;
    }

    /** Conversion to bool reads the exit flag. */
    function AsBool(): bool
      reads this
    {
      doExit
    }

    /** Assigning a bool sets the exit flag to it and clears the recorded signal. */
    method Assign(v: bool)
      modifies this
      ensures doExit == v && signal == 0 && AsBool() == v
      ensures powerFailure == old(powerFailure)
    {
      signal := 0;
      doExit := v;
    }

    /** The signal handler: remember the signal, note a power failure, request exit. */
    method SetDoExit(sig: int)
      modifies this
      ensures powerFailure == (sig == SIGPWR)
      ensures signal == sig && doExit && AsBool()
    {
      powerFailure := sig == SIGPWR;
      signal := sig;
      doExit := true;
    }
  }

  /** An owned file descriptor; -1 means none. */
  class UniqueFd {
    var fd: int

    constructor (fd: int)
      ensures this.fd == fd
    {
      this.fd := fd;
    }

    /** Conversion to int yields the held descriptor. */
    function Value(): int
      reads this
    {
      fd
    }

    /** Destruction closes the descriptor exactly when one is held. */
    function ClosesOnDestroy(): bool
      reads this
    {
      fd != -1
    }

    /**
      Move assignment: this object takes over the source's descriptor and the
      source is left holding none. The descriptor this object held before is
      overwritten without being closed. Moving an object into itself leaves it empty.
    */
    method MoveAssign(uf: UniqueFd)
      modifies this, uf
      ensures uf != this ==> Value() == old(uf.Value())
      ensures uf.Value() == -1 && !uf.ClosesOnDestroy()
      ensures uf != this ==> [fd, uf.fd] == MoveFd([old(fd), old(uf.fd)], 0, 1)
      ensures uf == this ==> [fd] == MoveFd([old(fd)], 0, 0)
    {
      fd := uf.fd;
      uf.fd := -1;
    }
  }

  /**
    Several holders of descriptors, one per position, and the move assignment
    of holder `j` into holder `i` among them (`i == j` is a self-move): the
    specification `UniqueFd.MoveAssign` is proved against.
  */
  function MoveFd(fds: seq<int>, i: nat, j: nat): seq<int>
    requires i < |fds| && j < |fds|
  {
    fds[i := fds[j]][j := -1]
  }

  /** No two holders would close the same descriptor on destruction. */
  predicate OwnersUnique(fds: seq<int>) {
    forall a, b :: 0 <= a < |fds| && 0 <= b < |fds| && a != b && fds[a] != -1 ==> fds[a] != fds[b]
  }

  /**
    A move never makes two holders close the same descriptor: ownership stays
    unique, the target holds the source's descriptor, the source holds none,
    every other holder is untouched and no holder gains a descriptor that was
    not held before (the target's old one is dropped without being closed).
  */
  lemma MoveKeepsOwnersUnique(fds: seq<int>, i: nat, j: nat)
    requires i < |fds| && j < |fds| && OwnersUnique(fds)
    ensures var r := MoveFd(fds, i, j);
      OwnersUnique(r) && |r| == |fds| && r[j] == -1 && (i != j ==> r[i] == fds[j]) &&
      (forall k :: 0 <= k < |fds| && k != i && k != j ==> r[k] == fds[k]) &&
      (forall k :: 0 <= k < |r| && r[k] != -1 ==> r[k] in fds)
  {
    var r := MoveFd(fds, i, j);
    forall a, b | 0 <= a < |r| && 0 <= b < |r| && a != b && r[a] != -1
      ensures r[a] != r[b]
    {
      var a0 := if a == i then j else a;
      var b0 := if b == i then j else b;
      assert r[a] == fds[a0];
      if r[b] != -1 {
        assert r[b] == fds[b0];
      }
    }
  }
}
