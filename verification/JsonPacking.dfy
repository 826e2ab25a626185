/**
 `JsonValue` of core/gason.hpp: 64 bits that are a double, or a tag and a payload of 47 bits under the mark of
 a NaN. A double is its bit pattern.
 */
module JsonPacking {
  import opened Bits

  const NUMBER: nat := 0
  const NAN_MASK: nat := 0x7FF8_0000_0000_0000
  const PAYLOAD_MASK: nat := 0x0000_7FFF_FFFF_FFFF
  const TAG_MASK: nat := 0xF

  /** The constructor from a tag and a payload: `NAN_MASK | tag << 47 | payload`. */
  function Pack(tag: nat, payload: nat): nat
    requires tag <= TAG_MASK && payload <= PAYLOAD_MASK
  {
    Or(Or(NAN_MASK, tag * 0x8000_0000_0000), payload)
  }

  function Int64(ival: nat): int { if ival < 0x8000_0000_0000_0000 then ival else ival - TWO_64 }

  predicate IsDouble(ival: nat) { Int64(ival) <= Int64(NAN_MASK) }

  function GetTag(ival: nat): nat {
    if IsDouble(ival) then NUMBER else And(ival / 0x8000_0000_0000, TAG_MASK)
  }

  function GetPayload(ival: nat): nat { And(ival, PAYLOAD_MASK) }

  // ---------------------------------------------------------------------------
  // Values
  // ---------------------------------------------------------------------------

  lemma ShiftOfTag()
    ensures Power2(47) == 0x8000_0000_0000 && Power2(4) == 16 && Power2(51) == 0x8_0000_0000_0000
  {
    PowersOfTwo();
    var eight, four, thirtyTwo := 8, 4, 32;
    assert Power2(four) == 16;
    assert Power2(four + 3) == 128;
    PowerSum(thirtyTwo, eight);
    PowerSum(thirtyTwo + eight, four + 3);
    PowerSum(47, four);
  }

  lemma PackIsSum(tag: nat, payload: nat)
    requires tag <= TAG_MASK && payload <= PAYLOAD_MASK
    ensures Pack(tag, payload) == 0x7FF8_0000_0000_0000 + tag * 0x8000_0000_0000 + payload
  {
    hide Or, Power2;
    ShiftOfTag();
    OrIsSum(0xFFF, tag * 0x8000_0000_0000, 51);
    OrIsSum(0xFFF0 + tag, payload, 47);
  }

  /** A tag other than that of a number and a payload come back, and are never taken for a double. */
  lemma PackRoundTrip(tag: nat, payload: nat)
    requires 0 < tag <= TAG_MASK && payload <= PAYLOAD_MASK
    ensures
      var ival := Pack(tag, payload);
      !IsDouble(ival) && ival < 0x8000_0000_0000_0000 && GetTag(ival) == tag && GetPayload(ival) == payload
  {
    hide Or, And, Power2;
    var ival := Pack(tag, payload);
    PackIsSum(tag, payload);
    ShiftOfTag();
    LowBits(ival, 47);
    LowBits(ival / 0x8000_0000_0000, 4);
    assert ival == 0x8000_0000_0000 * (0xFFF0 + tag) + payload;
  }

  /** A double is taken for one exactly when it is not a positive NaN with a tag in it. */
  lemma NumberExactly(bits: nat)
    requires bits < TWO_64
    ensures GetTag(bits) == NUMBER <==> bits < NAN_MASK + 0x8000_0000_0000 || 0x8000_0000_0000_0000 <= bits
  {
    hide And, Power2;
    ShiftOfTag();
    LowBits(bits / 0x8000_0000_0000, 4);
    var q := bits / 0x8000_0000_0000;
    if NAN_MASK < bits < 0x8000_0000_0000_0000 {
      assert 0xFFF0 <= q < 0x1_0000;
      assert q % 16 == q - 0xFFF0;
    }
  }

  /** A NaN that is taken for a string. */
  lemma TaggedNaN()
    ensures GetTag(0x7FF8_8000_0000_0000) == 1
  {
    hide And, Power2;
    ShiftOfTag();
    LowBits(0xFFF1, 4);
  }
}
