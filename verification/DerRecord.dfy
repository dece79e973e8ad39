/** Records written by an encoder object and read by a decoder object, field by field. */
module DerRecord {
  import Bits
  import opened ByteTypes
  import opened Asn1
  import opened BerDecoder
  import opened DerEncoder
  import opened DerRoundTrip

  /**
   One field under its own tag goes through encode_optional, with a default or without; a retagged or
   wrapped one is written by its caller unless it is omitted.
   */
  method EncodeField<V(==)>(enc: DerEncoder, f: Field<V>, value: Option<V>)
    requires Typed(f, value)
    modifies enc
    ensures enc.State() == old(enc.State()).AddAll(Written(f, value))
  {
    match f.tagging
    case Own =>
      if f.default.Some? {
        enc.EncodeOptionalDefault(f.codec, value.value, f.default.value);
      } else {
        enc.EncodeOptional(f.codec, value);
      }
    case Implicit(t, c) =>
      if !Omitted(f, value) {
        enc.EncodeTagged(f.codec, value.value, t, c);
      }
    case Explicit(t) =>
      if !Omitted(f, value) {
        ConstructedIsOneObject(enc.State(), t, EXPLICIT_CONTEXT_SPECIFIC, [f.codec.Object(value.value)]);
        ExplicitIsConstructed();
        enc.StartCons(t, EXPLICIT_CONTEXT_SPECIFIC);
        enc.Encode(f.codec, value.value);
        var ok := enc.EndCons();
      }
  }

  lemma ExplicitIsConstructed()
    ensures AsConstructed(EXPLICIT_CONTEXT_SPECIFIC) == EXPLICIT_CONTEXT_SPECIFIC
  {
    AsConstructedIs(EXPLICIT_CONTEXT_SPECIFIC);
    Bits.TestBitIsDivMod(EXPLICIT_CONTEXT_SPECIFIC, 5);
    assert Bits.Pow2(5) == 32;
  }

  lemma {:induction false} AddAllAppend(d: Der, a: seq<BerObject>, b: seq<BerObject>)
    ensures d.AddAll(a + b) == d.AddAll(a).AddAll(b)
    decreases |a|
  {
    if a == [] {
      assert a + b == b;
    } else {
      AddAllAppend(d.Add(a[0]), a[1..], b);
      assert (a + b)[1..] == a[1..] + b;
    }
  }

  /** At any depth of nesting, the encoder gains exactly the objects of the record. */
  method EncodeFields<V(==)>(enc: DerEncoder, fs: seq<Field<V>>, values: seq<Option<V>>)
    requires TypedRecord(fs, values)
    modifies enc
    ensures enc.State() == old(enc.State()).AddAll(EncodeRecord(fs, values))
  {
    var i := 0;
    while i < |fs|
      invariant 0 <= i <= |fs|
      invariant old(enc.State()).AddAll(EncodeRecord(fs, values))
             == enc.State().AddAll(EncodeRecord(fs[i..], values[i..]))
    {
      assert fs[i..][1..] == fs[i + 1..] && values[i..][1..] == values[i + 1..];
      AddAllAppend(enc.State(), Written(fs[i], values[i]), EncodeRecord(fs[i + 1..], values[i + 1..]));
      EncodeField(enc, fs[i], values[i]);
      i := i + 1;
    }
  }

  /** One field: decode_optional into an option, or with its default value. */
  method DecodeOneField<V(!new)>(dec: BerDecoder, f: Field<V>) returns (r: Result<Option<V>>)
    requires LawfulField(f)
    modifies dec
    ensures (r, dec.Stream()) == DecodeField(f, old(dec.Stream()))
  {
    if f.default.Some? {
      var v := dec.DecodeOptionalDefault(f.codec, f.TypeTag(), f.ClassTag(), f.default.value);
      r := ToOption(v);
    } else {
      r := dec.DecodeOptional(f.codec, f.TypeTag(), f.ClassTag());
    }
  }

  /** `head` decoded already: the outcome for the whole record, given that for the remaining fields. */
  function Combine<V>(head: seq<Option<V>>, r: (Result<seq<Option<V>>>, seq<BerObject>))
    : (Result<seq<Option<V>>>, seq<BerObject>)
  {
    (if r.0.Ok? then Ok(head + r.0.value) else r.0, r.1)
  }

  method DecodeFields<V(!new)>(dec: BerDecoder, fs: seq<Field<V>>) returns (r: Result<seq<Option<V>>>)
    requires LawfulFields(fs)
    modifies dec
    ensures (r, dec.Stream()) == DecodeRecord(fs, old(dec.Stream()))
  {
    var i, values := 0, [];
    assert Combine([], DecodeRecord(fs, dec.Stream())) == DecodeRecord(fs, dec.Stream()) by {
      var d := DecodeRecord(fs, dec.Stream()).0;
      assert d.Ok? ==> [] + d.value == d.value;
    }
    while i < |fs|
      invariant 0 <= i <= |fs|
      invariant DecodeRecord(fs, old(dec.Stream())) == Combine(values, DecodeRecord(fs[i..], dec.Stream()))
    {
      ghost var before := dec.Stream();
      var v := DecodeOneField(dec, fs[i]);
      assert fs[i..][1..] == fs[i + 1..];
      if v.Err? {
        return Err(v.failure);
      }
      ghost var later := DecodeRecord(fs[i + 1..], dec.Stream());
      assert DecodeRecord(fs[i..], before) == Prepend(v.value, later);
      assert later.0.Ok? ==> values + ([v.value] + later.0.value) == (values + [v.value]) + later.0.value;
      values := values + [v.value];
      i := i + 1;
    }
    assert DecodeRecord(fs[i..], dec.Stream()) == (Ok([]), dec.Stream());
    assert values + [] == values;
    r := Ok(values);
  }

  /**
   A fresh encoder writes a record, a decoder reads its output followed by `rest`: the record comes
   back and `rest` is left, if and only if every field that was not written is told apart from what
   follows it.
   */
  method WriteThenRead<V(!new, ==)>(fs: seq<Field<V>>, values: seq<Option<V>>, rest: seq<BerObject>)
    returns (r: Result<seq<Option<V>>>, left: seq<BerObject>)
    requires LawfulFields(fs) && TypedRecord(fs, values)
    ensures r == Ok(values) && left == rest <==> Distinguishable(fs, values, rest)
  {
    var enc := new DerEncoder();
    EncodeFields(enc, fs, values);
    AddAllToOutput(Der([], []), EncodeRecord(fs, values));
    assert [] + EncodeRecord(fs, values) == EncodeRecord(fs, values);
    var dec := new BerDecoder(enc.output + rest);
    r := DecodeFields(dec, fs);
    left := dec.Stream();
    RecordRoundTripIff(fs, values, rest);
  }
}
