/** The HID++ 2.0 protocol version a device reports: a protocol number and a
    target-software bit mask whose meaning depends on the protocol number. */
module ProtocolVersions {
  import opened ByteUtils

  datatype ProtocolVersion = ProtocolVersion(protocolNumber: byte, targetSoftware: byte) {

    /** All the bits of `mask` are set in the target-software byte. */
    predicate IsTargetBitSet(mask: byte) {
      targetSoftware & mask == mask
    }

    // OEM software (protocol 3)
    predicate Lenovo() { protocolNumber == 3 && IsTargetBitSet(0x01) }
    predicate Dell() { protocolNumber == 3 && IsTargetBitSet(0x02) }

    // Logitech software (protocol 4)
    predicate LogitechDeviceManager() { protocolNumber == 4 && IsTargetBitSet(0x01) }
    predicate LogitechGamingSoftware() { protocolNumber == 4 && IsTargetBitSet(0x02) }
    predicate LogitechPreferenceManager() { protocolNumber == 4 && IsTargetBitSet(0x04) }
    predicate WindowsPresenterSoftware() { protocolNumber == 4 && IsTargetBitSet(0x08) }
    predicate MacPresenterSoftware() { protocolNumber == 4 && IsTargetBitSet(0x10) }
    predicate TargetSoftwareFeature() { protocolNumber == 4 && IsTargetBitSet(0x80) }

    predicate LogitechSetPoint() { protocolNumber == 2 }

    predicate AnyOem() { Lenovo() || Dell() }

    predicate AnyLogitechSoftware() {
      LogitechDeviceManager() || LogitechGamingSoftware() || LogitechPreferenceManager()
      || WindowsPresenterSoftware() || MacPresenterSoftware() || TargetSoftwareFeature()
    }
  }

  /** The parameterless constructor. */
  function DefaultVersion(): (v: ProtocolVersion)
    ensures v.protocolNumber == 0 && v.targetSoftware == 0
    ensures !v.AnyOem() && !v.AnyLogitechSoftware() && !v.LogitechSetPoint()
  {
    ProtocolVersion(0, 0)
  }

  /** IsTargetBitSet means every bit of the mask is set: for a single bit it
      is a plain bit test, and for a union of masks it holds exactly when it
      holds for each. */
  lemma TargetBitSetMeaning(v: ProtocolVersion, k: nat, m1: byte, m2: byte)
    requires k < 8
    ensures v.IsTargetBitSet((1 as byte) << k) <==> IsBitSet(v.targetSoftware, k)
    ensures v.IsTargetBitSet(m1 | m2) <==> v.IsTargetBitSet(m1) && v.IsTargetBitSet(m2)
    ensures v.IsTargetBitSet(0)
  {
  }

  /** The flags of different protocol families are never true together, and
      each family needs its own protocol number. */
  lemma FlagFamiliesExclusive(v: ProtocolVersion)
    ensures v.AnyOem() ==> v.protocolNumber == 3 && !v.AnyLogitechSoftware() && !v.LogitechSetPoint()
    ensures v.AnyLogitechSoftware() ==> v.protocolNumber == 4 && !v.AnyOem() && !v.LogitechSetPoint()
    ensures v.LogitechSetPoint() ==> !v.AnyOem() && !v.AnyLogitechSoftware()
  {
  }

  /** Within protocol 4 a flag is exactly its target-software bit. */
  lemma SoftwareFlagsAreBits(v: ProtocolVersion)
    requires v.protocolNumber == 4
    ensures v.LogitechDeviceManager() <==> IsBitSet(v.targetSoftware, 0)
    ensures v.LogitechGamingSoftware() <==> IsBitSet(v.targetSoftware, 1)
    ensures v.LogitechPreferenceManager() <==> IsBitSet(v.targetSoftware, 2)
    ensures v.WindowsPresenterSoftware() <==> IsBitSet(v.targetSoftware, 3)
    ensures v.MacPresenterSoftware() <==> IsBitSet(v.targetSoftware, 4)
    ensures v.TargetSoftwareFeature() <==> IsBitSet(v.targetSoftware, 7)
  {
    SingleBitMask(v, 0);
    SingleBitMask(v, 1);
    SingleBitMask(v, 2);
    SingleBitMask(v, 3);
    SingleBitMask(v, 4);
    SingleBitMask(v, 7);
  }

  lemma SingleBitMask(v: ProtocolVersion, k: nat)
    requires k < 8
    ensures v.IsTargetBitSet(Mask(k)) <==> IsBitSet(v.targetSoftware, k)
  {
    IsBitSetMask(v.targetSoftware, k);
  }
}
