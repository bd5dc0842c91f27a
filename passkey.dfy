/**
 * The passkey side of the BLE service (src/bluetooth.cpp): the six-digit
 * pairing passkey, its acceptance rules, the passkey characteristic, the
 * boot-time check of the stored value, and the platform calls made when the
 * passkey changes. The platform (Preferences, NimBLE advertising and bond
 * store) is represented by the few values the code reads back and by a log
 * of the calls it makes.
 */
module Passkey {
  import opened Bytes

  const PW_DEFAULT: uint32 := 654321
  const PW_IS_SET: byte := 0x00
  const PW_NEEDS_TO_BE_CHANGED: byte := 0x01

  /** The inclusive six-digit range, and the one value setPw refuses as too weak. */
  const PW_MIN: uint32 := 100000
  const PW_MAX: uint32 := 999999
  const PW_WEAK: uint32 := 123456

  predicate InRange(pw: uint32)
  {
    PW_MIN <= pw <= PW_MAX
  }

  /** setPw's guard: in range and not the weak value. */
  predicate Acceptable(pw: uint32)
  {
    !(pw < PW_MIN || pw > PW_MAX || pw == PW_WEAK)
  }

  /** The candidate of a 4-byte passkey write: data[0] | data[1] << 8 | data[2] << 16 | data[3] << 24. */
  function DecodeLE32(data: seq<byte>): uint32
    requires |data| == 4
  {
    (data[0] as int + data[1] as int * 0x100 + data[2] as int * 0x1_0000 + data[3] as int * 0x100_0000) as uint32
  }

  /** The four bytes a client sends for a candidate, least significant first. */
  function EncodeLE32(x: uint32): (data: seq<byte>)
    ensures |data| == 4
  {
    var n0 := x as int;
    var n1 := n0 / 0x100;
    var n2 := n1 / 0x100;
    var n3 := n2 / 0x100;
    [(n0 % 0x100) as byte, (n1 % 0x100) as byte, (n2 % 0x100) as byte, n3 as byte]
  }

  /** Splitting off the low byte of a non-negative number. */
  lemma {:induction false} LowByte(n: int, low: int, high: int)
    requires 0 <= low < 0x100 && n == low + 0x100 * high
    ensures n % 0x100 == low && n / 0x100 == high
  {
  }

  lemma {:induction false} DecodeEncode(x: uint32)
    ensures DecodeLE32(EncodeLE32(x)) == x
  {
    var n0 := x as int;
    var n1 := n0 / 0x100;
    var n2 := n1 / 0x100;
    var n3 := n2 / 0x100;
    assert n0 == n0 % 0x100 + 0x100 * n1;
    assert n1 == n1 % 0x100 + 0x100 * n2;
    assert n2 == n2 % 0x100 + 0x100 * n3;
  }

  lemma {:induction false} EncodeDecode(data: seq<byte>)
    requires |data| == 4
    ensures EncodeLE32(DecodeLE32(data)) == data
  {
    var b0, b1, b2, b3 := data[0] as int, data[1] as int, data[2] as int, data[3] as int;
    var n2 := b2 + 0x100 * b3;
    var n1 := b1 + 0x100 * n2;
    var n0 := b0 + 0x100 * n1;
    assert DecodeLE32(data) as int == n0;
    LowByte(n0, b0, n1);
    LowByte(n1, b1, n2);
    LowByte(n2, b2, b3);
    assert EncodeLE32(DecodeLE32(data)) == [b0 as byte, b1 as byte, b2 as byte, b3 as byte];
  }

  /**
   * Only candidates whose last byte is zero (and whose third byte is at most
   * 0x0F) can pass setPw's guard. In particular the signed overflow of
   * `data[3] << 24` for data[3] >= 0x80 never reaches an accepted value.
   */
  lemma {:induction false} AcceptedCandidateBytes(data: seq<byte>)
    requires |data| == 4 && Acceptable(DecodeLE32(data))
    ensures data[3] == 0 && data[2] <= 0x0F
  {
  }

  /** The status byte of the passkey characteristic: "needs to be changed" exactly while the default is in use. */
  function Status(pw: uint32): (r: byte)
    ensures r == PW_NEEDS_TO_BE_CHANGED <==> pw == PW_DEFAULT
    ensures r == PW_IS_SET <==> pw != PW_DEFAULT
  {
    if pw == PW_DEFAULT then PW_NEEDS_TO_BE_CHANGED else PW_IS_SET
  }

  /** The passkey and the stored key after the boot-time check. */
  datatype BootPasskey = BootPasskey(pw: uint32, stored: Option<uint32>)

  /**
   * Bluetooth::init: a stored key in range becomes the passkey; one out of
   * range is removed and the default used; with no key the passkey stays.
   */
  function Sanitised(stored: Option<uint32>, current: uint32): BootPasskey
  {
    if stored.None? then BootPasskey(current, None)
    else if stored.value < PW_MIN || stored.value > PW_MAX then BootPasskey(PW_DEFAULT, None)
    else BootPasskey(stored.value, stored)
  }

  /**
   * The boot-time check yields an in-range passkey that agrees with whatever
   * key it keeps, prefers a valid stored key, and is idempotent: a second boot
   * changes nothing.
   */
  lemma {:induction false} SanitisedProperties(stored: Option<uint32>, current: uint32)
    requires InRange(current)
    ensures var r := Sanitised(stored, current);
            && InRange(r.pw)
            && (r.stored.Some? ==> r.stored == stored && r.stored.value == r.pw)
            && (stored.Some? && InRange(stored.value) ==> r.pw == stored.value)
            && (stored.Some? && !InRange(stored.value) ==> r == BootPasskey(PW_DEFAULT, None))
            && Sanitised(r.stored, r.pw) == r
  {
  }

  /** The boot-time check tests only the range: a stored weak value is kept, although setPw would refuse it. */
  lemma {:induction false} BootKeepsStoredWeakValue()
    ensures Sanitised(Some(PW_WEAK), PW_DEFAULT).pw == PW_WEAK
    ensures !Acceptable(PW_WEAK)
  {
  }

  /** The candidate values named by the protocol's examples. */
  lemma {:induction false} CandidateExamples()
    ensures DecodeLE32([0x3F, 0x42, 0x0F, 0x00]) == 999999 && Acceptable(999999)
    ensures DecodeLE32([0x40, 0x42, 0x0F, 0x00]) == 1000000 && !Acceptable(1000000)
    ensures DecodeLE32([0x40, 0xE2, 0x01, 0x00]) == PW_WEAK && !Acceptable(PW_WEAK)
    ensures !Acceptable(99999) && Acceptable(100000)
  {
  }

  /** A call the passkey code makes into the platform. */
  datatype PlatformCall =
    | PutPw(pw: uint32)             // preferences.putUInt("pw", pw)
    | RemovePw                      // preferences.remove("pw")
    | AdvertisingStop               // p_advertising->stop()
    | AdvertisingStart(passkey: uint32)  // setSecurityPasskey(passkey), then advertising starts
    | DeleteBond(index: byte)       // deleteBond(getBondedAddress(index))

  /** The calls of unbindClients with n bonds: one deletion per index 0 .. n - 1. */
  function DeleteCalls(n: nat): (calls: seq<PlatformCall>)
    requires n <= 0x100
    ensures |calls| == n
    ensures forall i :: 0 <= i < n ==> calls[i] == DeleteBond(i as byte)
  {
    if n == 0 then [] else DeleteCalls(n - 1) + [DeleteBond((n - 1) as byte)]
  }

  /** The passkey state of bluetooth.cpp with the platform state it depends on. */
  class BleSecurity {
    var blePw: uint32
    /** The "pw" key in the "bluetooth" preferences namespace; None when absent. */
    var storedPw: Option<uint32>
    var advertising: bool
    /** The last passkey given to the pairing stack. */
    var pairingPasskey: uint32
    /** Every platform call, in order. */
    var calls: seq<PlatformCall>

    /**
     * The passkey is six digits, and the stored key is exactly what a reboot
     * turns into the current passkey.
     */
    ghost predicate Valid()
      reads this
    {
      && InRange(blePw)
      && blePw == (if storedPw.Some? then storedPw.value else PW_DEFAULT)
    }

    /** The static state before init: the default passkey and whatever the preferences hold. */
    constructor (stored: Option<uint32>)
      ensures blePw == PW_DEFAULT && storedPw == stored
      ensures !advertising && pairingPasskey == PW_DEFAULT && calls == []
    {
      blePw := PW_DEFAULT;
      storedPw := stored;
      advertising := false;
      pairingPasskey := PW_DEFAULT;
      calls := [];
    }

    /** Bluetooth::init, the passkey part: load the stored key, discarding one out of range. */
    method Init()
      modifies this`blePw, this`storedPw, this`calls
      ensures BootPasskey(blePw, storedPw) == Sanitised(old(storedPw), old(blePw))
      ensures calls == old(calls) + (if old(storedPw).Some? && !InRange(old(storedPw).value) then [RemovePw] else [])
      ensures old(blePw) == PW_DEFAULT ==> Valid()
    {
      if storedPw.Some? {
        blePw := storedPw.value;
        if blePw < PW_MIN || blePw > PW_MAX {
          blePw := PW_DEFAULT;
          storedPw := None;
          calls := calls + [RemovePw];
        }
      }
    }

    /**
     * stopAdvertising: stops only what the stack reports as running.
     * `isAdvertising` is the stack's answer to `p_advertising->isAdvertising()`
     * (false while `p_advertising` is still null); the stack also ends
     * advertising by itself when a client connects, so the answer may differ
     * from `advertising`, which records only this code's own start and stop.
     */
    method StopAdvertising(isAdvertising: bool)
      modifies this`advertising, this`calls
      ensures !advertising
      ensures calls == old(calls) + (if isAdvertising then [AdvertisingStop] else [])
    {
      advertising := false;
      if isAdvertising {
        calls := calls + [AdvertisingStop];
      }
    }

    /** startAdvertising: hand the current passkey to the pairing stack and advertise. */
    method StartAdvertising()
      modifies this`advertising, this`pairingPasskey, this`calls
      ensures advertising && pairingPasskey == blePw
      ensures calls == old(calls) + [AdvertisingStart(blePw)]
    {
      pairingPasskey := blePw;
      advertising := true;
      calls := calls + [AdvertisingStart(blePw)];
    }

    /** unbindClients: delete the bond at each index below the bond count the platform reports. */
    method UnbindClients(nBonds: nat)
      requires nBonds <= 0xFF
      modifies this`calls
      ensures calls == old(calls) + DeleteCalls(nBonds)
    {
      var i: byte := 0;
      while (i as int) < nBonds
        invariant i as int <= nBonds
        invariant calls == old(calls) + DeleteCalls(i as int)
      {
        calls := calls + [DeleteBond(i)];
        i := i + 1;
      }
    }

    /**
     * setPw: refuse silently, or adopt the passkey, persist it, and restart
     * advertising with every bond deleted in between.
     */
    method SetPw(newPw: uint32, isAdvertising: bool, nBonds: nat)
      requires nBonds <= 0xFF
      modifies this
      ensures !Acceptable(newPw) ==>
        && blePw == old(blePw) && storedPw == old(storedPw) && advertising == old(advertising)
        && pairingPasskey == old(pairingPasskey) && calls == old(calls)
      ensures Acceptable(newPw) ==>
        && blePw == newPw && storedPw == Some(newPw)
        && advertising && pairingPasskey == newPw
        && calls == old(calls) + [PutPw(newPw)] + (if isAdvertising then [AdvertisingStop] else [])
                    + DeleteCalls(nBonds) + [AdvertisingStart(newPw)]
      ensures old(Valid()) ==> Valid()
    {
      if newPw < PW_MIN || newPw > PW_MAX || newPw == PW_WEAK {
        return;
      }
      blePw := newPw;
      storedPw := Some(blePw);
      calls := calls + [PutPw(blePw)];
      StopAdvertising(isAdvertising);
      UnbindClients(nBonds);
      StartAdvertising();
    }

    /** ChrPwCallbacks::onRead: the one-byte status, never the passkey itself. */
    method OnReadPw() returns (value: seq<byte>)
      ensures value == [Status(blePw)]
      ensures value == [PW_NEEDS_TO_BE_CHANGED] <==> blePw == PW_DEFAULT
    {
      value := [if blePw == PW_DEFAULT then PW_NEEDS_TO_BE_CHANGED else PW_IS_SET];
    }

    /**
     * ChrPwCallbacks::onWrite: a write of any length but 4 changes nothing
     * and leaves the characteristic's value alone; 4 bytes are one candidate,
     * followed by the status byte as the characteristic's new value.
     */
    method OnWritePw(value: seq<byte>, isAdvertising: bool, nBonds: nat) returns (newValue: Option<seq<byte>>)
      requires nBonds <= 0xFF
      modifies this
      ensures |value| != 4 ==>
        && newValue == None
        && blePw == old(blePw) && storedPw == old(storedPw) && advertising == old(advertising)
        && pairingPasskey == old(pairingPasskey) && calls == old(calls)
      ensures |value| == 4 && !Acceptable(DecodeLE32(value)) ==>
        && blePw == old(blePw) && storedPw == old(storedPw) && advertising == old(advertising)
        && pairingPasskey == old(pairingPasskey) && calls == old(calls)
      ensures |value| == 4 && Acceptable(DecodeLE32(value)) ==>
        && blePw == DecodeLE32(value) && storedPw == Some(blePw)
        && advertising && pairingPasskey == blePw
        && calls == old(calls) + [PutPw(blePw)] + (if isAdvertising then [AdvertisingStop] else [])
                    + DeleteCalls(nBonds) + [AdvertisingStart(blePw)]
      ensures |value| == 4 ==> newValue == Some([Status(blePw)])
      ensures old(Valid()) ==> Valid()
    {
      if |value| != 4 {
        return None;
      }
      SetPw(DecodeLE32(value), isAdvertising, nBonds);
      newValue := Some([if blePw == PW_DEFAULT then PW_NEEDS_TO_BE_CHANGED else PW_IS_SET]);
    }
  }

  /**
   * A device booted without a stored key starts advertising and reports
   * "needs to be changed" to the client that connects (which ends the
   * advertising, so the stack answers that it is not advertising); writing
   * 999999 changes the passkey and the status with no stop call; 1000000,
   * the weak value and a 3-byte write then change nothing.
   */
  method PasskeyWrites(nBonds: nat)
    returns (before: seq<byte>, accepted: uint32, after: seq<byte>, finalPw: uint32,
             shortWrite: Option<seq<byte>>, log: seq<PlatformCall>)
    requires nBonds <= 0xFF
    ensures before == [PW_NEEDS_TO_BE_CHANGED]
    ensures accepted == 999999 && after == [PW_IS_SET]
    ensures finalPw == 999999 && shortWrite == None
    ensures log == [AdvertisingStart(PW_DEFAULT), PutPw(999999)] + DeleteCalls(nBonds) + [AdvertisingStart(999999)]
  {
    var security := new BleSecurity(None);
    security.Init();
    security.StartAdvertising();
    before := security.OnReadPw();
    var reply := security.OnWritePw(EncodeLE32(999999), false, nBonds);
    DecodeEncode(999999);
    accepted := security.blePw;
    after := security.OnReadPw();
    DecodeEncode(1000000);
    reply := security.OnWritePw(EncodeLE32(1000000), false, nBonds);
    DecodeEncode(PW_WEAK);
    reply := security.OnWritePw(EncodeLE32(PW_WEAK), true, nBonds);
    shortWrite := security.OnWritePw([0x3F, 0x42, 0x0F], true, nBonds);
    finalPw := security.blePw;
    log := security.calls;
  }
}
