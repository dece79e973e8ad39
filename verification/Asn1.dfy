/**
 ASN.1 objects as the decoder and the encoder exchange them, and the meaning of the decoder's
 templates as functions on the stream of objects still to be read.
 */
module Asn1 {
  import opened Bits
  import opened ByteTypes

  // Identifier octets (section 8.1.2 of ITU-T X.690); bit 6 of the class marks a constructed encoding.
  const UNIVERSAL: nat := 0x00
  const CONTEXT_SPECIFIC: nat := 0x80
  const CONSTRUCTED: nat := 0x20
  const EXPLICIT_CONTEXT_SPECIFIC: nat := CONSTRUCTED + CONTEXT_SPECIFIC
  const SET: nat := 0x11
  const NO_OBJECT: nat := 0xFF00

  datatype Contents = Primitive(bytes: Bytes) | Constructed(items: seq<BerObject>)

  datatype BerObject = BerObject(typeTag: nat, classTag: nat, value: Contents) {
    predicate IsSet() {
      typeTag != NO_OBJECT
    }

    predicate IsA(t: nat, c: nat) {
      typeTag == t && classTag == c
    }
  }

  const EmptyObject: BerObject := BerObject(NO_OBJECT, UNIVERSAL, Primitive([]))

  function AsConstructed(c: nat): nat {
    BitOr(c, CONSTRUCTED)
  }

  /** A class already has the constructed bit exactly when or-ing it in changes nothing. */
  lemma AsConstructedIs(c: nat)
    ensures AsConstructed(c) == c <==> TestBit(c, 5)
    ensures AsConstructed(c) == if TestBit(c, 5) then c else c + CONSTRUCTED
  {
    assert Pow2(5) == CONSTRUCTED;
    BitOrPow2(c, 5);
  }

  datatype Failure = BadTag | BadValue | TrailingData | SlotOccupied

  datatype Result<+T> = Ok(value: T) | Err(failure: Failure)

  /**
   How values of one type are tagged and represented; `decode` fails on contents it rejects. Values
   of different types live together in one universe V, and `domain` picks out those of this type.
   */
  datatype Codec<!V> = Codec(
    typeTag: nat, classTag: nat, domain: V -> bool, encode: V -> Contents, decode: Contents -> Option<V>)
  {
    function Object(v: V): BerObject {
      BerObject(typeTag, classTag, encode(v))
    }
  }

  ghost predicate Lawful<V(!new)>(codec: Codec<V>) {
    && codec.typeTag != NO_OBJECT
    && (forall v | codec.domain(v) :: codec.decode(codec.encode(v)) == Some(v))
  }

  /** Decoding yields values of the type, and contents have no other representation than the encoder's, as in DER. */
  ghost predicate Canonical<V(!new)>(codec: Codec<V>) {
    forall x {:trigger codec.decode(x)} :: codec.decode(x).Some? ==>
      codec.domain(codec.decode(x).value) && codec.encode(codec.decode(x).value) == x
  }

  // ---------- One object ----------

  /** What a push_back of `o` in front of `rest` leaves to be read. */
  function PushedBack(o: BerObject, rest: seq<BerObject>): seq<BerObject> {
    if o.IsSet() then [o] + rest else rest
  }

  function DecodeContents<V>(codec: Codec<V>, value: Contents): Result<V> {
    match codec.decode(value)
    case Some(v) => Ok(v)
    case None => Err(BadValue)
  }

  /** decode(out, t, c): the next object must carry that tag. */
  function DecodeNext<V>(codec: Codec<V>, t: nat, c: nat, stream: seq<BerObject>): (Result<V>, seq<BerObject>) {
    if stream == [] then (Err(BadTag), [])
    else if !stream[0].IsA(t, c) then (Err(BadTag), stream[1..])
    else (DecodeContents(codec, stream[0].value), stream[1..])
  }

  /** An explicitly tagged value: exactly one object of the value's own tag inside (section 8.14 of X.690). */
  function DecodeWrapped<V>(codec: Codec<V>, value: Contents): Result<V> {
    match value
    case Primitive(_) => Err(BadValue)
    case Constructed(items) =>
      var (r, rest) := DecodeNext(codec, codec.typeTag, codec.classTag, items);
      if r.Ok? && rest != [] then Err(TrailingData) else r
  }

  // ---------- Optional elements ----------

  function Matches(t: nat, c: nat, stream: seq<BerObject>): bool {
    stream != [] && stream[0].IsA(t, c)
  }

  function ToOption<V>(r: Result<V>): Result<Option<V>> {
    match r
    case Ok(v) => Ok(Some(v))
    case Err(f) => Err(f)
  }

  /** What is left when the next object is read and pushed back. */
  function Unread(stream: seq<BerObject>): seq<BerObject> {
    if stream == [] then [] else PushedBack(stream[0], stream[1..])
  }

  function DecodeOptional<V>(codec: Codec<V>, t: nat, c: nat, stream: seq<BerObject>)
    : (r: (Result<Option<V>>, seq<BerObject>))
    ensures |r.1| <= |stream|
  {
    if !Matches(t, c, stream) then (Ok(None), Unread(stream))
    else if c == EXPLICIT_CONTEXT_SPECIFIC then (ToOption(DecodeWrapped(codec, stream[0].value)), stream[1..])
    else (ToOption(DecodeContents(codec, stream[0].value)), stream[1..])
  }

  function OrDefault<V>(r: Result<Option<V>>, default: V): Result<V> {
    match r
    case Ok(Some(v)) => Ok(v)
    case Ok(None) => Ok(default)
    case Err(f) => Err(f)
  }

  /**
   Reading an object and pushing it back leaves the stream as it was, exactly when the object is
   not tagged with the number the slot reserves for "nothing pushed". At the end of the stream
   there is nothing to lose.
   */
  lemma UnreadKeepsStreamIff(stream: seq<BerObject>)
    ensures Unread(stream) == stream <==> stream == [] || stream[0].typeTag != 0xFF00
  {
    if stream != [] && !stream[0].IsSet() {
      assert |Unread(stream)| < |stream|;
    }
  }

  // ---------- Lists ----------

  /** Decodes items until none is left or one fails; the values decoded so far are returned in any case. */
  function DecodeItems<V>(codec: Codec<V>, items: seq<BerObject>): (Result<()>, seq<V>) {
    if items == [] then (Ok(()), [])
    else
      match DecodeNext(codec, codec.typeTag, codec.classTag, items).0
      case Err(f) => (Err(f), [])
      case Ok(v) =>
        var (r, vs) := DecodeItems(codec, items[1..]);
        (r, [v] + vs)
  }

  function EncodeItems<V>(codec: Codec<V>, values: seq<V>): (r: seq<BerObject>)
    ensures |r| == |values|
    ensures forall k | 0 <= k < |r| :: r[k] == BerObject(codec.typeTag, codec.classTag, codec.encode(values[k]))
  {
    if values == [] then [] else [codec.Object(values[0])] + EncodeItems(codec, values[1..])
  }

  function DecodeList<V>(codec: Codec<V>, t: nat, c: nat, stream: seq<BerObject>): (Result<()>, seq<V>) {
    if !Matches(t, AsConstructed(c), stream) then (Err(BadTag), [])
    else if stream[0].value.Primitive? then (Err(BadValue), [])
    else DecodeItems(codec, stream[0].value.items)
  }

  function ListObject<V>(codec: Codec<V>, t: nat, c: nat, values: seq<V>): BerObject {
    BerObject(t, AsConstructed(c), Constructed(EncodeItems(codec, values)))
  }
}
