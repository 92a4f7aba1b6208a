/**
 * How the reader turns raw 16-bit words and bits into values. Scaled
 * values are exact reals; the source divides in IEEE floating point.
 */
module Decoding {
  import opened Wrappers
  import opened Modbus

  /** A Python value as stored in a result dict or handed to `publish`. */
  datatype Value = NoneValue | IntValue(i: int) | RealValue(r: real) | BoolValue(b: bool)

  /** The decode rules the reader applies, one per kind of field. */
  datatype Rule =
    | SignedInt     // ORP: two's complement, no scaling
    | Hundredths    // pH: divided by 100
    | UnsignedInt   // EC, chlorine production: the word itself
    | SignedTenths  // pool temperature: two's complement, divided by 10
    | Flag          // a discrete input: the bit itself

  /**
   * Two's-complement reading of a word (`raw - 65536` above 32767): the one
   * value in the signed 16-bit range that is congruent to `raw` modulo 2^16.
   */
  function ToSigned16(raw: Word): (v: int)
    ensures -0x8000 <= v < 0x8000
    ensures (raw - v) % 0x1_0000 == 0
  {
    if raw > 32767 then raw - 65536 else raw
  }

  /** How a signed reading is stored in a register: the inverse of `ToSigned16`. */
  function ToUnsigned16(v: int): Word
  {
    v % 0x1_0000
  }

  lemma SignedRoundTrip(raw: Word)
    ensures ToUnsigned16(ToSigned16(raw)) == raw
  {
  }

  lemma UnsignedRoundTrip(v: int)
    requires -0x8000 <= v < 0x8000
    ensures ToSigned16(ToUnsigned16(v)) == v
  {
  }

  /** The ends of the signed range: the sign correction never saturates. */
  lemma SignedExtremes()
    ensures ToSigned16(0x7FFF) == 0x7FFF && ToSigned16(0x8000) == -0x8000
    ensures ToSigned16(0xFFFF) == -1 && ToSigned16(0) == 0
  {
  }

  /** pH: the word divided by 100, so that multiplying back gives the word. */
  function PhValue(raw: Word): (ph: real)
    ensures 0.0 <= ph <= 655.35
    ensures ph * 100.0 == raw as real
  {
    raw as real / 100.0
  }

  /**
   * Pool temperature, written with the source's two branches: the signed
   * reading of the word, in tenths of a degree.
   */
  function PoolTempValue(raw: Word): (t: real)
    ensures t == ToSigned16(raw) as real / 10.0
    ensures -3276.8 <= t <= 3276.7
  {
    if raw > 32767 then (raw - 65536) as real / 10.0 else raw as real / 10.0
  }

  /** The value a register rule gives a word. */
  function DecodeWord(rule: Rule, raw: Word): Value
    requires !rule.Flag?
  {
    match rule
    case SignedInt => IntValue(ToSigned16(raw))
    case Hundredths => RealValue(PhValue(raw))
    case UnsignedInt => IntValue(raw)
    case SignedTenths => RealValue(PoolTempValue(raw))
  }

  /**
   * The reading one reply yields under a rule, or nothing when the read
   * failed: a register rule needs a register, `Flag` needs a bit.
   */
  function DecodeReply(rule: Rule, reply: Reply): (r: Option<Value>)
    ensures reply.Error? ==> r.None?
    ensures r.Some? <==> if rule.Flag? then FirstBit(reply).Some? else FirstRegister(reply).Some?
  {
    if rule.Flag? then
      match FirstBit(reply)
      case Some(b) => Some(BoolValue(b))
      case None => None
    else
      match FirstRegister(reply)
      case Some(raw) => Some(DecodeWord(rule, raw))
      case None => None
  }

  /**
   * Every decoded word determines the word again: a signed reading
   * re-encodes to it, pH times 100 and temperature times 10 give back the
   * reading, EC and chlorine are the word itself.
   */
  lemma DecodeWordDetermines(rule: Rule, raw: Word)
    requires !rule.Flag?
    ensures var v := DecodeWord(rule, raw);
      && (rule.SignedInt? ==> v.IntValue? && -0x8000 <= v.i < 0x8000 && ToUnsigned16(v.i) == raw)
      && (rule.UnsignedInt? ==> v == IntValue(raw))
      && (rule.Hundredths? ==> v.RealValue? && v.r * 100.0 == raw as real)
      && (rule.SignedTenths? ==> v.RealValue? && -3276.8 <= v.r <= 3276.7 && ToUnsigned16((v.r * 10.0).Floor) == raw)
  {
  }

  /**
   * A successful read stores the reading of the one element the source
   * indexes: the first bit for a flag, the first register word decoded by
   * the field's rule otherwise.
   */
  lemma DecodeReplyValues(rule: Rule, reply: Reply)
    ensures rule.Flag? && DecodeReply(rule, reply).Some? ==>
      reply.Bits? && DecodeReply(rule, reply).value == BoolValue(reply.bits[0])
    ensures !rule.Flag? && DecodeReply(rule, reply).Some? ==>
      reply.Registers? && DecodeReply(rule, reply).value == DecodeWord(rule, reply.registers[0])
  {
  }

  /** A successful read never yields `None`, and each rule yields its own kind of value. */
  lemma DecodeReplyKinds(rule: Rule, reply: Reply)
    ensures DecodeReply(rule, reply) != Some(NoneValue)
    ensures DecodeReply(rule, reply).Some? ==>
      match rule
      case SignedInt => DecodeReply(rule, reply).value.IntValue?
      case UnsignedInt => DecodeReply(rule, reply).value.IntValue?
      case Hundredths => DecodeReply(rule, reply).value.RealValue?
      case SignedTenths => DecodeReply(rule, reply).value.RealValue?
      case Flag => DecodeReply(rule, reply).value.BoolValue?
  {
  }
}
