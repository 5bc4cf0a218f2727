/** `WLAN_BSSID_EX`, as far as its information elements go. */
module Bssid {
  import opened Bytes
  import opened Tlv
  import opened ElementSearch

  /** Timestamp, beacon interval and capabilities come before the first element. */
  const FIXED_IE_LENGTH := 12

  class BssidEx {
    const IEs: array<byte>
    var IELength: nat

    /** After the fixed fields come exactly the elements `es`. */
    ghost predicate Holds(es: seq<Item>)
      reads this, IEs
    {
      && IEs.Length == MAX_IE_SZ
      && FIXED_IE_LENGTH <= IELength <= MAX_IE_SZ
      && HoldsElements(IEs[..], FIXED_IE_LENGTH, IELength - FIXED_IE_LENGTH, es)
    }

    constructor (IEs: array<byte>, IELength: nat)
      ensures this.IEs == IEs && this.IELength == IELength
    {
      this.IEs := IEs;
      this.IELength := IELength;
    }
  }

  lemma HoldsFixed(b: seq<byte>, b': seq<byte>, n: nat, es: seq<Item>)
    requires |b| >= FIXED_IE_LENGTH && AllOk(InfoElement, es)
    requires n == FIXED_IE_LENGTH + |Encode(InfoElement, es)| <= |b'|
    requires b'[..n] == b[..FIXED_IE_LENGTH] + Encode(InfoElement, es)
    ensures HoldsElements(b', FIXED_IE_LENGTH, n - FIXED_IE_LENGTH, es)
  {
    assert b'[FIXED_IE_LENGTH..n] == b'[..n][FIXED_IE_LENGTH..];
  }
}
