/**
 * The time-series encoders and decoders (TTBConverters): an encoder that
 * builds its request message once and hands out the same bytes thereafter.
 */
module TtbConverters {
  import opened Wrappers

  /** A Java `byte`. */
  newtype JavaByte = b: int | -128 <= b < 128

  /**
   * `MemoizingEncoder`: the operation's builder, fixed at construction, and
   * the encoded message, null until the first `build()`. `buildMessage`
   * stands for the subclass's message followed by `toByteArray()`; the
   * term codec behind it is not part of this model. The ghost counter
   * `builds` records how many times `buildMessage` has run.
   */
  class MemoizingEncoder<T> {
    var message: array?<JavaByte>
    const builder: T
    const buildMessage: T -> seq<JavaByte>
    ghost var builds: nat

    /** `buildMessage` has run exactly once if a message is stored, and never otherwise. */
    ghost predicate Valid()
      reads this
    {
      builds == if message == null then 0 else 1
    }

    constructor (builder: T, buildMessage: T -> seq<JavaByte>)
      ensures Valid()
      ensures message == null && builds == 0
      ensures this.builder == builder && this.buildMessage == buildMessage
    {
      this.builder := builder;
      this.buildMessage := buildMessage;
      message := null;
      builds := 0;
    }

    /**
     * `build()`: the first call encodes the builder once and stores a fresh
     * array holding the bytes; every later call returns that same array,
     * untouched, and changes nothing.
     */
    method Build() returns (bytes: array<JavaByte>)
      requires Valid()
      modifies this
      ensures Valid() && message == bytes
      ensures old(message) == null ==> fresh(bytes) && bytes[..] == buildMessage(builder) && builds == old(builds) + 1
      ensures old(message) != null ==> bytes == old(message) && bytes[..] == old(message[..]) && builds == old(builds)
    {
      if message == null {
        var os := buildMessage(builder);
        message := new JavaByte[|os|](i requires 0 <= i < |os| => os[i]);
        builds := builds + 1;
      }
      bytes := message;
    }
  }

  /**
   * The copy `FetchEncoder.buildMessage` makes of the builder's key cells
   * before encoding them: the same cells, in iteration order.
   */
  method CopyKeyCells<C>(keyValues: seq<C>) returns (list: seq<C>)
    ensures list == keyValues
  {
    list := [];
    for i := 0 to |keyValues|
      invariant list == keyValues[..i]
    {
      list := list + [keyValues[i]];
    }
  }

  /** `VoidDecoder.parseFrom`: a `Void` result, null whatever the bytes. */
  function VoidParseFrom(data: seq<JavaByte>): (v: Option<()>)
    ensures v == None
  {
    None
  }
}
