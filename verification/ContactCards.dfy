/**
 The contact-card payload: a ContactCard message, or, at exactly 32 bytes, a bare intake key from a
 build before the card. The rule is unambiguous as long as no card is 32 bytes long.
 */
module ContactCards {
  import opened Outcomes
  import opened ByteStrings
  import opened Varints

  const LEGACY_LEN: nat := 32
  const KEY_TAG: Byte := 0x0A
  const ADDRESS_TAG: Byte := 0x12
  const GENERATION_TAG: Byte := 0x18

  /** `field`: one tag byte, one length byte; None where the length does not fit its byte. */
  function Field(tag: Byte, value: Bytes): Option<Bytes> {
    if |value| > 255 then None else Some([tag, |value|] + value)
  }

  datatype Card = Card(intakeKey: Option<Bytes>, accountAddress: Option<Bytes>, generation: Option<nat>)

  function FieldPart(tag: Byte, value: Option<Bytes>): Option<Bytes> {
    if value.None? then Some([]) else Field(tag, value.value)
  }

  function CardBytes(c: Card): Option<Bytes> {
    match (FieldPart(KEY_TAG, c.intakeKey), FieldPart(ADDRESS_TAG, c.accountAddress))
    case (Some(key), Some(address)) =>
      Some(key + address
           + if c.generation.None? then [] else [GENERATION_TAG] + VarintBytes(c.generation.value))
    case _ => None
  }

  /** How a payload reads: at exactly 32 bytes a bare intake key, else a ContactCard message. */
  datatype Payload = LegacyIntakeKey(key: Bytes) | CardMessage(message: Bytes)

  function ReadsAs(payload: Bytes): Payload {
    if |payload| == LEGACY_LEN then LegacyIntakeKey(payload) else CardMessage(payload)
  }

  /** The fields as the format defines them: two 32-byte keys and a uint32, each optional. */
  predicate Proper(c: Card) {
    && (c.intakeKey.Some? ==> |c.intakeKey.value| == 32)
    && (c.accountAddress.Some? ==> |c.accountAddress.value| == 32)
    && (c.generation.Some? ==> c.generation.value < U32)
  }

  lemma GenerationLength(n: nat)
    requires n < U32
    ensures |VarintBytes(n)| <= 5
  {
    assert Pow128(5) == 128 * (128 * (128 * (128 * (128 * Pow128(0)))));
    VarintLength(n, 5);
  }

  /** Every proper card reads as a card, never as a bare intake key. */
  lemma CardNeverLegacy(c: Card)
    requires Proper(c)
    ensures CardBytes(c).Some? && ReadsAs(CardBytes(c).value) == CardMessage(CardBytes(c).value)
  {
    if c.generation.Some? {
      GenerationLength(c.generation.value);
    }
  }

  /**
   The message definition says any card with a field is longer than 32 bytes. That holds exactly when
   it has a key or an address: a generation alone takes two to six bytes.
   */
  lemma LongerExactlyWithKeyOrAddress(c: Card)
    requires Proper(c)
    ensures |CardBytes(c).value| > LEGACY_LEN <==> c.intakeKey.Some? || c.accountAddress.Some?
    ensures c.generation.Some? && c.intakeKey.None? && c.accountAddress.None? ==> 2 <= |CardBytes(c).value| <= 6
  {
    if c.generation.Some? {
      GenerationLength(c.generation.value);
    }
  }

  /** A card whose key is 30 bytes instead of 32 is read as a bare intake key. */
  lemma ShortKeyCollides(key: Bytes)
    requires |key| == 30
    ensures var card := CardBytes(Card(Some(key), None, None));
            card.Some? && ReadsAs(card.value) == LegacyIntakeKey(card.value)
  {
  }

  /** The bytes a field takes: tag, length, value. */
  function FieldSize(value: Option<Bytes>): nat {
    if value.None? then 0 else 2 + |value.value|
  }

  function GenerationSize(generation: Option<nat>): nat {
    if generation.None? then 0 else 1 + |VarintBytes(generation.value)|
  }

  /**
   Of all cards that can be written, with fields of any length, exactly those whose fields take 32
   bytes together read as a bare intake key.
   */
  lemma CollidesExactly(c: Card)
    requires CardBytes(c).Some?
    ensures ReadsAs(CardBytes(c).value).LegacyIntakeKey? <==>
            FieldSize(c.intakeKey) + FieldSize(c.accountAddress) + GenerationSize(c.generation) == LEGACY_LEN
  {
  }

  /**
   The two field writers agree exactly on values under 128 bytes: `field` writes the length as one
   byte, `p_bytes` as a varint.
   */
  lemma FieldIsLengthDelimited(number: nat, value: Bytes)
    requires 1 <= number <= 15 && |value| < U64
    ensures Field(8 * number + 2, value) == Some(FieldBytes(number, value)) <==> |value| < 128
  {
    assert VarintBytes(number * 8 + 2) == [number * 8 + 2];
    var code := VarintBytes(|value|);
    assert FieldBytes(number, value) == [number * 8 + 2] + code + value;
    if |value| < 128 {
      assert code == [|value|];
      assert [8 * number + 2, |value|] + value == [number * 8 + 2] + code + value;
    } else {
      assert |code| >= 2;
      assert |FieldBytes(number, value)| > 2 + |value|;
    }
  }

  /** The bytes of a card: each present field with its tag, the two keys with the length 32. */
  lemma CardLayout(key: Bytes, address: Bytes, generation: nat)
    requires |key| == |address| == 32
    ensures CardBytes(Card(Some(key), None, None)) == Some([0x0A, 0x20] + key)
    ensures CardBytes(Card(None, Some(address), None)) == Some([0x12, 0x20] + address)
    ensures CardBytes(Card(None, None, Some(generation))) == Some([0x18] + VarintBytes(generation))
    ensures CardBytes(Card(Some(key), Some(address), Some(300))) ==
            Some([0x0A, 0x20] + key + [0x12, 0x20] + address + [0x18, 0xAC, 0x02])
  {
    var none: Bytes := [];
    assert [0x0A, 0x20] + key + none + none == [0x0A, 0x20] + key;
    assert none + ([0x12, 0x20] + address) + none == [0x12, 0x20] + address;
    assert none + none + ([0x18] + VarintBytes(generation)) == [0x18] + VarintBytes(generation);
    VarintOf300();
    assert [0x18] + [0xAC, 0x02] == [0x18, 0xAC, 0x02];
    assert FieldPart(KEY_TAG, Some(key)) == Some([0x0A, 0x20] + key);
    assert FieldPart(ADDRESS_TAG, Some(address)) == Some([0x12, 0x20] + address);
    assert [0x0A, 0x20] + key + ([0x12, 0x20] + address) + [0x18, 0xAC, 0x02]
        == [0x0A, 0x20] + key + [0x12, 0x20] + address + [0x18, 0xAC, 0x02];
  }

  /** A field over 255 bytes cannot be written, and only such a field keeps a card from being written. */
  lemma WritableExactly(c: Card)
    ensures CardBytes(c).Some? <==>
            (c.intakeKey.Some? ==> |c.intakeKey.value| <= 255) && (c.accountAddress.Some? ==> |c.accountAddress.value| <= 255)
  {
  }

  /** Exactly the payloads of 32 bytes are bare keys, and the payload is the key. */
  lemma LegacyExactly(payload: Bytes)
    ensures ReadsAs(payload) == LegacyIntakeKey(payload) <==> |payload| == 32
    ensures ReadsAs(payload) == CardMessage(payload) <==> |payload| != 32
  {
  }
}
