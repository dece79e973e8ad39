/**
 The decoder undoes the encoder: lists, and records whose fields are OPTIONAL or have a DEFAULT, each
 with a type of its own.
 */
module DerRoundTrip {
  import opened ByteTypes
  import Bits
  import opened Asn1

  // ---------- Lists ----------

  ghost predicate AllInDomain<V>(codec: Codec<V>, values: seq<V>) {
    forall i | 0 <= i < |values| :: codec.domain(values[i])
  }

  lemma {:induction false} ItemsRoundTrip<V(!new)>(codec: Codec<V>, values: seq<V>)
    requires Lawful(codec) && AllInDomain(codec, values)
    ensures DecodeItems(codec, EncodeItems(codec, values)) == (Ok(()), values)
  {
    if values != [] {
      ItemsRoundTrip(codec, values[1..]);
      var items := EncodeItems(codec, values);
      assert items[0] == codec.Object(values[0]) && items[1..] == EncodeItems(codec, values[1..]);
      assert DecodeNext(codec, codec.typeTag, codec.classTag, items).0 == Ok(values[0]);
      assert [values[0]] + values[1..] == values;
    }
  }

  /** decode_list returns exactly the values encode_list wrote, in order, and nothing is left over. */
  lemma ListRoundTrip<V(!new)>(codec: Codec<V>, t: nat, c: nat, values: seq<V>, rest: seq<BerObject>)
    requires Lawful(codec) && AllInDomain(codec, values)
    ensures DecodeList(codec, t, c, [ListObject(codec, t, c, values)] + rest) == (Ok(()), values)
  {
    ItemsRoundTrip(codec, values);
  }

  /**
   decode_optional_list recognises an encoded list exactly when its caller names a class that has
   the constructed bit: the look-ahead compares the class as given, while start_cons adds the bit.
   With the default class argument, Universal, no well-formed list is ever recognised.
   */
  lemma OptionalListSeenIff<V>(codec: Codec<V>, t: nat, c: nat, values: seq<V>, rest: seq<BerObject>)
    ensures Matches(t, c, [ListObject(codec, t, c, values)] + rest) <==> Bits.TestBit(c, 5)
    ensures !Matches(0x10, 0x00, [ListObject(codec, 0x10, 0x00, values)] + rest)
  {
    AsConstructedIs(c);
    AsConstructedIs(UNIVERSAL);
    Bits.TestBitZero(5);
  }

  // ---------- Fields ----------

  /** The tag an element is written under: its type's own, another one in its place, or another one around it. */
  datatype Tagging = Own | Implicit(typeTag: nat, classTag: nat) | Explicit(typeTag: nat)

  /**
   A field of a record: its type, its tag, and a default value if it has one. A value of the field
   is an option; with a default it is always present.
   */
  datatype Field<!V> = Field(codec: Codec<V>, tagging: Tagging, default: Option<V>) {
    function TypeTag(): nat {
      if tagging.Own? then codec.typeTag else tagging.typeTag
    }

    function ClassTag(): nat {
      match tagging
      case Own => codec.classTag
      case Implicit(_, c) => c
      case Explicit(_) => EXPLICIT_CONTEXT_SPECIFIC
    }

    function Object(v: V): BerObject {
      BerObject(TypeTag(), ClassTag(), if tagging.Explicit? then Constructed([codec.Object(v)]) else codec.encode(v))
    }
  }

  /** The class 0xA0 always means a wrapped value to the decoder, so no other field may be written under it. */
  ghost predicate LawfulField<V(!new)>(f: Field<V>) {
    && Lawful(f.codec) && f.TypeTag() != NO_OBJECT
    && (f.tagging.Explicit? || f.ClassTag() != EXPLICIT_CONTEXT_SPECIFIC)
    && (f.default.Some? ==> f.codec.domain(f.default.value))
  }

  ghost predicate LawfulFields<V(!new)>(fs: seq<Field<V>>) {
    forall i | 0 <= i < |fs| :: LawfulField(fs[i])
  }

  predicate Typed<V>(f: Field<V>, value: Option<V>) {
    && (value.Some? ==> f.codec.domain(value.value))
    && (f.default.Some? ==> value.Some?)
  }

  /** A record has one value for each field, of the field's type. */
  predicate TypedRecord<V>(fs: seq<Field<V>>, values: seq<Option<V>>) {
    |fs| == |values| && forall i | 0 <= i < |fs| :: Typed(fs[i], values[i])
  }

  /** Not written: absent, or equal to the default (section 11.5 of X.690). */
  predicate Omitted<V(==)>(f: Field<V>, value: Option<V>) {
    value == None || value == f.default
  }

  function Written<V(==)>(f: Field<V>, value: Option<V>): seq<BerObject> {
    if Omitted(f, value) then [] else [f.Object(value.value)]
  }

  /** decode_optional for this field: into an option, or with its default value. */
  function DecodeField<V>(f: Field<V>, stream: seq<BerObject>): (r: (Result<Option<V>>, seq<BerObject>))
    ensures |r.1| <= |stream|
  {
    var (o, rest) := DecodeOptional(f.codec, f.TypeTag(), f.ClassTag(), stream);
    (if f.default.Some? then ToOption(OrDefault(o, f.default.value)) else o, rest)
  }

  /** Would the decoder, looking for this field, see that it was not written and lose nothing? */
  predicate SeenAbsent<V>(f: Field<V>, stream: seq<BerObject>) {
    stream == [] || (stream[0].IsSet() && !stream[0].IsA(f.TypeTag(), f.ClassTag()))
  }

  lemma WrittenField<V(!new)>(f: Field<V>, v: V, rest: seq<BerObject>)
    requires LawfulField(f) && f.codec.domain(v)
    ensures DecodeField(f, [f.Object(v)] + rest) == (Ok(Some(v)), rest)
  {
    var stream := [f.Object(v)] + rest;
    assert stream[1..] == rest;
    if f.tagging.Explicit? {
      var items := [f.codec.Object(v)];
      assert items[1..] == [];
      assert DecodeNext(f.codec, f.codec.typeTag, f.codec.classTag, items) == (Ok(v), []);
    }
  }

  /** A field decodes to its default, or as absent, without touching the stream exactly when it is seen absent. */
  lemma OmittedFieldIff<V(!new)>(f: Field<V>, stream: seq<BerObject>)
    ensures DecodeField(f, stream) == (Ok(f.default), stream) <==> SeenAbsent(f, stream)
    ensures !SeenAbsent(f, stream) ==> |DecodeField(f, stream).1| == |stream| - 1
  {
    UnreadKeepsStreamIff(stream);
  }

  /** A value that would have been written can only come from an object that was read. */
  lemma FieldReadsObject<V(!new)>(f: Field<V>, stream: seq<BerObject>)
    ensures var (r, rest) := DecodeField(f, stream);
      r.Ok? ==> |Written(f, r.value)| + |rest| <= |stream| && (f.default.Some? ==> r.value.Some?)
  {
  }

  // ---------- Records ----------

  /** encode_optional for each field in turn. */
  function EncodeRecord<V(==)>(fs: seq<Field<V>>, values: seq<Option<V>>): seq<BerObject>
    requires |fs| == |values|
  {
    if fs == [] then [] else Written(fs[0], values[0]) + EncodeRecord(fs[1..], values[1..])
  }

  /** The first field's value in front of the outcome for the others. */
  function Prepend<V>(v: Option<V>, r: (Result<seq<Option<V>>>, seq<BerObject>)): (Result<seq<Option<V>>>, seq<BerObject>) {
    (if r.0.Ok? then Ok([v] + r.0.value) else r.0, r.1)
  }

  /** decode_optional for each field in turn. */
  function DecodeRecord<V>(fs: seq<Field<V>>, stream: seq<BerObject>): (Result<seq<Option<V>>>, seq<BerObject>) {
    if fs == [] then (Ok([]), stream)
    else
      var (v, rest) := DecodeField(fs[0], stream);
      match v
      case Err(e) => (Err(e), rest)
      case Ok(v) => Prepend(v, DecodeRecord(fs[1..], rest))
  }

  /** Every field that is not written is told apart from whatever is encoded next. */
  predicate Distinguishable<V(==)>(fs: seq<Field<V>>, values: seq<Option<V>>, rest: seq<BerObject>)
    requires |fs| == |values|
  {
    fs == [] ||
    (&& (Omitted(fs[0], values[0]) ==> SeenAbsent(fs[0], EncodeRecord(fs[1..], values[1..]) + rest))
     && Distinguishable(fs[1..], values[1..], rest))
  }

  /** The values decoded would be written as no more objects than were read. */
  lemma {:induction false} RecordReadsObjects<V(!new)>(fs: seq<Field<V>>, stream: seq<BerObject>)
    ensures var (r, rest) := DecodeRecord(fs, stream);
      && |rest| <= |stream|
      && (r.Ok? ==> |r.value| == |fs| && |EncodeRecord(fs, r.value)| + |rest| <= |stream|)
    decreases |fs|
  {
    if fs != [] {
      FieldReadsObject(fs[0], stream);
      var (v, left) := DecodeField(fs[0], stream);
      RecordReadsObjects(fs[1..], left);
      var (r, rest) := DecodeRecord(fs, stream);
      if r.Ok? {
        assert r.value[1..] == DecodeRecord(fs[1..], left).0.value;
      }
    }
  }

  /** Once the first field decodes as it should, the record decodes iff the remaining fields do. */
  lemma StepIff<V>(fs: seq<Field<V>>, values: seq<Option<V>>, stream: seq<BerObject>, tail: seq<BerObject>, rest: seq<BerObject>)
    requires |fs| == |values| > 0
    requires DecodeField(fs[0], stream) == (Ok(values[0]), tail)
    ensures DecodeRecord(fs, stream) == (Ok(values), rest) <==> DecodeRecord(fs[1..], tail) == (Ok(values[1..]), rest)
  {
    var (r, left) := DecodeRecord(fs[1..], tail);
    assert values == [values[0]] + values[1..];
    if r.Ok? {
      assert ([values[0]] + r.value)[1..] == r.value;
    }
  }

  /**
   A field that was not written but is not seen absent spoils the record: a wrong value, or too few
   objects left for the fields that were written.
   */
  lemma LostField<V(!new)>(fs: seq<Field<V>>, values: seq<Option<V>>, rest: seq<BerObject>)
    requires |fs| == |values| > 0 && Omitted(fs[0], values[0])
    requires !SeenAbsent(fs[0], EncodeRecord(fs[1..], values[1..]) + rest)
    ensures DecodeRecord(fs, EncodeRecord(fs, values) + rest) != (Ok(values), rest)
  {
    var stream := EncodeRecord(fs[1..], values[1..]) + rest;
    assert EncodeRecord(fs, values) + rest == stream;
    OmittedFieldIff(fs[0], stream);
    var (v, left) := DecodeField(fs[0], stream);
    RecordReadsObjects(fs[1..], left);
    if v == Ok(values[0]) {
      StepIff(fs, values, stream, left, rest);
    } else if v.Ok? {
      var r := DecodeRecord(fs[1..], left).0;
      assert r.Ok? ==> ([v.value] + r.value)[0] == v.value;
    }
  }

  lemma FirstFieldDecodes<V(!new)>(f: Field<V>, value: Option<V>, tail: seq<BerObject>)
    requires LawfulField(f) && Typed(f, value) && (Omitted(f, value) ==> SeenAbsent(f, tail))
    ensures DecodeField(f, Written(f, value) + tail) == (Ok(value), tail)
  {
    if Omitted(f, value) {
      assert Written(f, value) + tail == tail;
      OmittedFieldIff(f, tail);
    } else {
      WrittenField(f, value.value, tail);
    }
  }

  /**
   Decoding field by field gives back exactly the encoded record and leaves the rest of the stream
   untouched, if and only if every field that was not written, absent or equal to its default, can
   be told apart from what follows it.
   */
  lemma {:induction false} RecordRoundTripIff<V(!new)>(fs: seq<Field<V>>, values: seq<Option<V>>, rest: seq<BerObject>)
    requires TypedRecord(fs, values) && LawfulFields(fs)
    ensures DecodeRecord(fs, EncodeRecord(fs, values) + rest) == (Ok(values), rest)
            <==> Distinguishable(fs, values, rest)
    decreases |fs|
  {
    if fs == [] {
      assert EncodeRecord(fs, values) + rest == rest;
    } else {
      var tail := EncodeRecord(fs[1..], values[1..]) + rest;
      RecordRoundTripIff(fs[1..], values[1..], rest);
      if Omitted(fs[0], values[0]) && !SeenAbsent(fs[0], tail) {
        LostField(fs, values, rest);
      } else {
        FirstFieldDecodes(fs[0], values[0], tail);
        assert EncodeRecord(fs, values) + rest == Written(fs[0], values[0]) + tail;
        StepIff(fs, values, EncodeRecord(fs, values) + rest, tail, rest);
      }
    }
  }

  /** The fields are written in order, each from its own value. */
  lemma {:induction false} WrittenInOrder<V>(fs: seq<Field<V>>, values: seq<Option<V>>, k: nat)
    requires |fs| == |values| && k < |fs|
    ensures EncodeRecord(fs, values) == EncodeRecord(fs[..k], values[..k])
      + Written(fs[k], values[k]) + EncodeRecord(fs[k + 1..], values[k + 1..])
    decreases k
  {
    if k > 0 {
      WrittenInOrder(fs[1..], values[1..], k - 1);
      assert fs[..k][1..] == fs[1..][..k - 1] && values[..k][1..] == values[1..][..k - 1];
      assert fs[1..][k..] == fs[k + 1..] && values[1..][k..] == values[k + 1..];
    }
  }

  /** Two fields a decoder can tell apart. */
  predicate Apart<V>(f: Field<V>, g: Field<V>) {
    f.TypeTag() != g.TypeTag() || f.ClassTag() != g.ClassTag()
  }

  /**
   The usual way to meet the condition: every field's tag differs from the tags of the later fields
   and from the tag of whatever follows the record.
   */
  lemma {:induction false} DistinctTagsDistinguish<V(!new)>(fs: seq<Field<V>>, values: seq<Option<V>>, rest: seq<BerObject>)
    requires TypedRecord(fs, values) && LawfulFields(fs)
    requires forall i, j | 0 <= i < j < |fs| :: Apart(fs[i], fs[j])
    requires forall i | 0 <= i < |fs| :: SeenAbsent(fs[i], rest)
    ensures Distinguishable(fs, values, rest)
    ensures DecodeRecord(fs, EncodeRecord(fs, values) + rest) == (Ok(values), rest)
    decreases |fs|
  {
    if fs != [] {
      assert forall i | 0 <= i < |fs[1..]| :: fs[1..][i] == fs[i + 1];
      DistinctTagsDistinguish(fs[1..], values[1..], rest);
      HeadIsLaterField(fs[0], fs[1..], values[1..], rest);
    }
    RecordRoundTripIff(fs, values, rest);
  }

  lemma {:induction false} HeadIsLaterField<V(!new)>(f: Field<V>, fs: seq<Field<V>>, values: seq<Option<V>>, rest: seq<BerObject>)
    requires |fs| == |values| && LawfulFields(fs) && SeenAbsent(f, rest)
    requires forall j | 0 <= j < |fs| :: Apart(f, fs[j])
    ensures SeenAbsent(f, EncodeRecord(fs, values) + rest)
    decreases |fs|
  {
    if fs == [] {
      assert EncodeRecord(fs, values) + rest == rest;
    } else {
      assert LawfulField(fs[0]) && Apart(f, fs[0]);
      assert forall i | 0 <= i < |fs[1..]| :: fs[1..][i] == fs[i + 1];
      HeadIsLaterField(f, fs[1..], values[1..], rest);
      assert EncodeRecord(fs, values) + rest
          == Written(fs[0], values[0]) + (EncodeRecord(fs[1..], values[1..]) + rest);
    }
  }

  // ---------- The other way round ----------

  /**
   What encoding can reproduce of the next object: one that is read and is not the field's default
   written out, or one that is not the field's and survives being pushed back.
   */
  predicate Reproducible<V>(f: Field<V>, stream: seq<BerObject>) {
    if Matches(f.TypeTag(), f.ClassTag(), stream)
    then f.default.Some? ==> stream[0] != f.Object(f.default.value)
    else stream == [] || stream[0].IsSet()
  }

  /** No default was written out and no object was lost while the record was read. */
  predicate NothingDropped<V>(fs: seq<Field<V>>, stream: seq<BerObject>)
    decreases |fs|
  {
    fs == [] || (Reproducible(fs[0], stream) && NothingDropped(fs[1..], DecodeField(fs[0], stream).1))
  }

  lemma FieldReencodes<V(!new)>(f: Field<V>, stream: seq<BerObject>)
    requires LawfulField(f) && Canonical(f.codec)
    ensures var (r, rest) := DecodeField(f, stream);
      r.Ok? ==>
        && Typed(f, r.value)
        && (if Reproducible(f, stream) then Written(f, r.value) + rest == stream
            else Written(f, r.value) == [] && |rest| < |stream|)
  {
    if Matches(f.TypeTag(), f.ClassTag(), stream) {
      var o := stream[0];
      assert stream == [o] + stream[1..];
      var r := if f.tagging.Explicit? then DecodeWrapped(f.codec, o.value) else DecodeContents(f.codec, o.value);
      if r.Ok? {
        if f.tagging.Explicit? {
          assert o.value.items[1..] == [];
          assert o.value.items == [f.codec.Object(r.value)];
        }
        assert o == f.Object(r.value);
        if f.default.Some? {
          WrittenField(f, f.default.value, stream[1..]);
        }
      }
    } else {
      UnreadKeepsStreamIff(stream);
    }
  }

  lemma CancelPrefix<T>(head: seq<T>, x: seq<T>, y: seq<T>)
    ensures head + x == head + y <==> x == y
  {
    assert (head + x)[|head|..] == x && (head + y)[|head|..] == y;
  }

  /**
   Encoding a record that was decoded gives back the very objects that were read, if and only if no
   default was written out (which section 11.5 of X.690 forbids in DER and the decoder accepts) and
   no object was lost to the slot.
   */
  lemma {:induction false} RecordReencodesIff<V(!new)>(fs: seq<Field<V>>, stream: seq<BerObject>)
    requires LawfulFields(fs) && (forall i | 0 <= i < |fs| :: Canonical(fs[i].codec))
    requires DecodeRecord(fs, stream).0.Ok?
    ensures var (r, rest) := DecodeRecord(fs, stream);
      && TypedRecord(fs, r.value)
      && (EncodeRecord(fs, r.value) + rest == stream <==> NothingDropped(fs, stream))
    decreases |fs|
  {
    var (all, end) := DecodeRecord(fs, stream);
    if fs == [] {
      assert EncodeRecord(fs, all.value) + end == stream;
    } else {
      assert LawfulField(fs[0]);
      FieldReencodes(fs[0], stream);
      var (v, left) := DecodeField(fs[0], stream);
      RecordReencodesIff(fs[1..], left);
      RecordReadsObjects(fs[1..], left);
      var tail := DecodeRecord(fs[1..], left).0.value;
      assert all.value[1..] == tail;
      var head, later := Written(fs[0], v.value), EncodeRecord(fs[1..], tail) + end;
      assert EncodeRecord(fs, all.value) + end == head + later;
      CancelPrefix(head, later, left);
    }
  }

  // ---------- Records with fields of different types ----------

  datatype Sample = Flag(b: bool) | Number(n: nat) {
    predicate IsFlag() { Flag? }
    predicate IsNumber() { Number? && n < 256 }
  }

  function FlagField(default: Option<bool>): Field<Sample> {
    Field(Codec(0x01, UNIVERSAL, (v: Sample) => v.IsFlag(),
                (v: Sample) => Primitive([if v.IsFlag() && v.b then 0xFF else 0x00]),
                (x: Contents) => if x == Primitive([0xFF]) then Some(Flag(true))
                     else if x == Primitive([0x00]) then Some(Flag(false)) else None),
          Own, if default.Some? then Some(Flag(default.value)) else None)
  }

  function NumberField(tagging: Tagging): Field<Sample> {
    Field(Codec(0x02, UNIVERSAL, (v: Sample) => v.IsNumber(),
                (v: Sample) => Primitive([if v.IsNumber() then v.n else 0]),
                (x: Contents) => if x.Primitive? && |x.bytes| == 1 then Some(Number(x.bytes[0])) else None),
          tagging, None)
  }

  /** The laws can be met by fields of different types in one record, optional, defaulted, retagged and wrapped. */
  lemma MixedFieldsExist(default: Option<bool>, t: nat, c: nat)
    requires t != 0xFF00 && c != 0xA0
    ensures var fs := [FlagField(default), NumberField(Own), NumberField(Implicit(t, c)), NumberField(Explicit(t))];
      && LawfulFields(fs) && (forall i | 0 <= i < |fs| :: Canonical(fs[i].codec))
      && forall b: bool, n: nat | n < 256 ::
           TypedRecord(fs, [Some(Flag(b)), Some(Number(n)), Some(Number(n)), Some(Number(n))])
  {
  }
}
