/**
  The fingerprint validity test for one received CAN message: a message seen
  on a bus other than 0 is always acceptable, and a message on bus 0 must have
  an address the fingerprint knows with exactly the recorded data length.
*/
module Fingerprints {

  /** A received CAN message: arbitration address, bus number and payload bytes. */
  datatype CanMsg = CanMsg(address: int, src: int, dat: seq<bv8>)

  /** A fingerprint: CAN address to expected payload length. */
  type Fingerprint = map<int, int>

  /** Whether `msg` agrees with the car fingerprint `fp`. */
  predicate IsValidForFingerprint(msg: CanMsg, fp: Fingerprint)
  {
    msg.src != 0 || (msg.address in fp && fp[msg.address] == |msg.dat|)
  }

  /** A message from a bus other than 0 is always valid. */
  lemma OtherBusAlwaysValid(msg: CanMsg, fp: Fingerprint)
    requires msg.src != 0
    ensures IsValidForFingerprint(msg, fp)
  {
  }

  /** On bus 0, an address missing from the fingerprint makes the message invalid. */
  lemma UnknownAddressInvalid(msg: CanMsg, fp: Fingerprint)
    requires msg.src == 0 && msg.address !in fp
    ensures !IsValidForFingerprint(msg, fp)
  {
  }

  /** On bus 0 with a known address, validity is exactly agreement of the data length. */
  lemma KnownAddressValidIffLength(msg: CanMsg, fp: Fingerprint)
    requires msg.src == 0 && msg.address in fp
    ensures IsValidForFingerprint(msg, fp) <==> fp[msg.address] == |msg.dat|
  {
  }

  /** Validity looks at the bus, the address and the payload length, never at the payload bytes. */
  lemma ValidityIgnoresPayloadContents(m1: CanMsg, m2: CanMsg, fp: Fingerprint)
    requires m1.src == m2.src && m1.address == m2.address && |m1.dat| == |m2.dat|
    ensures IsValidForFingerprint(m1, fp) <==> IsValidForFingerprint(m2, fp)
  {
  }
  /**
    Adding addresses to a fingerprint (as the additional internal fingerprints
    do) never makes a valid message invalid, and a bus-0 message whose address
    the smaller fingerprint knows gets the same verdict from both.
  */
  lemma ExtendingKeepsValid(msg: CanMsg, fp: Fingerprint, bigger: Fingerprint)
    requires forall a :: a in fp ==> a in bigger && bigger[a] == fp[a]
    ensures IsValidForFingerprint(msg, fp) ==> IsValidForFingerprint(msg, bigger)
    ensures msg.address in fp ==> (IsValidForFingerprint(msg, fp) <==> IsValidForFingerprint(msg, bigger))
  {
  }

  /** On bus 0, a message is valid exactly when its address and length form an entry of the fingerprint. */
  lemma ValidIffEntry(msg: CanMsg, fp: Fingerprint)
    requires msg.src == 0
    ensures IsValidForFingerprint(msg, fp) <==> (msg.address, |msg.dat|) in fp.Items
  {
    if (msg.address, |msg.dat|) in fp.Items {
      assert msg.address in fp.Keys;
    }
    if IsValidForFingerprint(msg, fp) {
      assert (msg.address, fp[msg.address]) in fp.Items;
    }
  }
}
