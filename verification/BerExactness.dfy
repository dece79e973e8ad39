/**
 What the decoder's templates return on any stream, well-formed or not, said of the objects on the
 stream themselves.
 */
module BerExactness {
  import opened ByteTypes
  import opened Asn1

  /** Is this an object of the codec's type, under the codec's own tag, that holds `v`? */
  predicate Holds<V(==)>(codec: Codec<V>, o: BerObject, v: V) {
    o.typeTag == codec.typeTag && o.classTag == codec.classTag && codec.decode(o.value) == Some(v)
  }

  /** Does it hold any? */
  predicate HoldsSome<V>(codec: Codec<V>, o: BerObject) {
    o.typeTag == codec.typeTag && o.classTag == codec.classTag && codec.decode(o.value).Some?
  }

  /** decode under a tag, on any stream: the next object is used up whether it decodes or not. */
  lemma NextDecodesIff<V(!new)>(codec: Codec<V>, t: nat, c: nat, stream: seq<BerObject>)
    ensures var (r, rest) := DecodeNext(codec, t, c, stream);
      var there := stream != [] && stream[0].typeTag == t && stream[0].classTag == c;
      && rest == (if stream == [] then [] else stream[1..])
      && (!there <==> r == Err(BadTag))
      && (there ==> forall v :: r == Ok(v) <==> codec.decode(stream[0].value) == Some(v))
  {
  }

  // ---------- Optional elements ----------

  /** An object of class 0xA0 has to wrap exactly one object, of the type's own tag, with contents that decode. */
  lemma WrappedDecodesIff<V(!new)>(codec: Codec<V>, x: Contents, v: V)
    ensures DecodeWrapped(codec, x) == Ok(v) <==> x.Constructed? && |x.items| == 1 && Holds(codec, x.items[0], v)
  {
    if x.Constructed? && |x.items| == 1 {
      assert x.items[1..] == [];
    }
  }

  /**
   decode_optional, on any stream. The tag the caller names decides whether the element is there; the
   contents of the object found, or of the one object it wraps when the class is 0xA0, decide the
   value; the type's own tag plays no part in the first case.
   */
  lemma OptionalDecodesIff<V(!new)>(codec: Codec<V>, t: nat, c: nat, stream: seq<BerObject>)
    ensures var (r, rest) := DecodeOptional(codec, t, c, stream);
      var there := stream != [] && stream[0].typeTag == t && stream[0].classTag == c;
      && (!there <==> r == Ok(None))
      && (there ==> rest == stream[1..])
      && (!there && (stream == [] || stream[0].typeTag != 0xFF00) ==> rest == stream)
      && (there && c != 0xA0 ==> forall v :: r == Ok(Some(v)) <==> codec.decode(stream[0].value) == Some(v))
      && (there && c == 0xA0 ==> forall v :: r == Ok(Some(v)) <==>
            var x := stream[0].value; x.Constructed? && |x.items| == 1 && Holds(codec, x.items[0], v))
  {
    UnreadKeepsStreamIff(stream);
    if stream != [] {
      forall v
        ensures DecodeWrapped(codec, stream[0].value) == Ok(v) <==>
          var x := stream[0].value; x.Constructed? && |x.items| == 1 && Holds(codec, x.items[0], v)
      {
        WrappedDecodesIff(codec, stream[0].value, v);
      }
    }
  }

  /** A value written under any tag decodes under that tag, bare, and wrapped under class 0xA0. */
  lemma TaggedRoundTrip<V(!new)>(codec: Codec<V>, t: nat, c: nat, v: V, rest: seq<BerObject>)
    requires Lawful(codec) && codec.domain(v)
    ensures c != 0xA0 ==>
      DecodeOptional(codec, t, c, [BerObject(t, c, codec.encode(v))] + rest) == (Ok(Some(v)), rest)
    ensures DecodeOptional(codec, t, 0xA0,
              [BerObject(t, 0xA0, Constructed([BerObject(codec.typeTag, codec.classTag, codec.encode(v))]))] + rest)
         == (Ok(Some(v)), rest)
  {
    var bare := [BerObject(t, c, codec.encode(v))] + rest;
    var inner := BerObject(codec.typeTag, codec.classTag, codec.encode(v));
    var wrapped := [BerObject(t, 0xA0, Constructed([inner]))] + rest;
    assert bare[1..] == rest && wrapped[1..] == rest;
    WrappedDecodesIff(codec, Constructed([inner]), v);
  }

  // ---------- Lists ----------

  lemma {:induction false} ItemsDecode<V(!new)>(codec: Codec<V>, items: seq<BerObject>)
    ensures var (r, vs) := DecodeItems(codec, items);
      && |vs| <= |items|
      && (forall k | 0 <= k < |vs| :: Holds(codec, items[k], vs[k]))
      && (r.Ok? <==> |vs| == |items|)
      && (r.Err? ==> |vs| < |items| && !HoldsSome(codec, items[|vs|]))
    decreases |items|
  {
    if items != [] {
      ItemsDecode(codec, items[1..]);
      var next := DecodeNext(codec, codec.typeTag, codec.classTag, items).0;
      if next.Ok? {
        var vs, rest := DecodeItems(codec, items).1, DecodeItems(codec, items[1..]).1;
        assert vs == [next.value] + rest;
        forall k | 0 <= k < |vs|
          ensures Holds(codec, items[k], vs[k])
        {
          if k > 0 { assert Holds(codec, items[1..][k - 1], rest[k - 1]); }
        }
      }
    }
  }

  /**
   decode_list, on any stream. The list decodes if and only if the next object is constructed, has
   the given tag with the constructed bit, and every item in it holds a value of the type; the result
   is these values, one for each item. When an item holds none, the list fails, with the values of
   the items before the first such item.
   */
  lemma ListDecodesIff<V(!new)>(codec: Codec<V>, t: nat, c: nat, stream: seq<BerObject>)
    ensures var (r, vs) := DecodeList(codec, t, c, stream);
      var there := stream != [] && stream[0].typeTag == t && stream[0].classTag == AsConstructed(c)
                && stream[0].value.Constructed?;
      && (!there ==> r.Err? && vs == [])
      && (there ==>
            var items := stream[0].value.items;
            && (r.Ok? <==> forall k | 0 <= k < |items| :: HoldsSome(codec, items[k]))
            && (r.Ok? ==> |vs| == |items|)
            && |vs| <= |items| && (forall k | 0 <= k < |vs| :: Holds(codec, items[k], vs[k]))
            && (r.Err? ==> |vs| < |items| && !HoldsSome(codec, items[|vs|])))
  {
    if stream != [] && stream[0].value.Constructed? {
      var items := stream[0].value.items;
      ItemsDecode(codec, items);
      var (r, vs) := DecodeItems(codec, items);
      assert r.Ok? ==> forall k | 0 <= k < |items| :: Holds(codec, items[k], vs[k]);
    }
  }
}
