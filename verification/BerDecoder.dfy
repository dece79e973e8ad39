/** The BER decoder: a source of objects and a slot for one object that was pushed back. */
module BerDecoder {
  import opened ByteTypes
  import opened Asn1

  class BerDecoder {
    var pushed: BerObject
    var source: seq<BerObject>

    /** What is still to be read: the slot, then the source. */
    function Stream(): seq<BerObject>
      reads this
    {
      PushedBack(pushed, source)
    }

    constructor (items: seq<BerObject>)
      ensures Stream() == items && !pushed.IsSet()
    {
      pushed, source := EmptyObject, items;
    }

    // ---------- Reading and pushing back ----------

    method GetNextObject() returns (o: BerObject)
      modifies this
      ensures !pushed.IsSet()
      ensures old(Stream()) == [] ==> !o.IsSet() && Stream() == []
      ensures old(Stream()) != [] ==> o == old(Stream())[0] && Stream() == old(Stream())[1..]
    {
      if pushed.IsSet() {
        o := pushed;
        pushed := EmptyObject;
      } else if source == [] {
        o := EmptyObject;
      } else {
        o := source[0];
        source := source[1..];
      }
    }

    /** Refused when the slot is taken. */
    method PushBack(o: BerObject) returns (ok: bool)
      modifies this
      ensures if old(pushed.IsSet()) then !ok && pushed == old(pushed) && source == old(source)
              else ok && pushed == o && Stream() == PushedBack(o, old(Stream()))
    {
      ok := !pushed.IsSet();
      if ok {
        pushed := o;
      }
    }

    /** Fills the slot if it is empty. A push_back after this and before a read is therefore refused. */
    method PeekNextObject() returns (o: BerObject)
      modifies this
      ensures pushed == o && Stream() == Unread(old(Stream()))
      ensures if old(Stream()) == [] then !o.IsSet() else o == old(Stream())[0]
    {
      if !pushed.IsSet() {
        var next := GetNextObject();
        pushed := next;
      }
      o := pushed;
    }

    method MoreItems() returns (more: bool)
      ensures more <==> Stream() != []
    {
      more := pushed.IsSet() || source != [];
    }

    method VerifyEnd() returns (r: Result<()>)
      ensures r == if Stream() == [] then Ok(()) else Err(TrailingData)
    {
      var more := MoreItems();
      r := if more then Err(TrailingData) else Ok(());
    }

    // ---------- Values ----------

    method Decode<V>(codec: Codec<V>, t: nat, c: nat) returns (r: Result<V>)
      requires t != NO_OBJECT
      modifies this
      ensures !pushed.IsSet() && (r, Stream()) == DecodeNext(codec, t, c, old(Stream()))
    {
      var o := GetNextObject();
      if !o.IsA(t, c) {
        return Err(BadTag);
      }
      r := DecodeContents(codec, o.value);
    }

    /** BER_Decoder(obj).decode(out).verify_end() on the contents of an explicitly tagged object. */
    static method DecodeInside<V>(codec: Codec<V>, o: BerObject) returns (r: Result<V>)
      requires codec.typeTag != NO_OBJECT
      ensures r == DecodeWrapped(codec, o.value)
    {
      match o.value
      case Primitive(_) => r := Err(BadValue);
      case Constructed(items) =>
        var inner := new BerDecoder(items);
        r := inner.Decode(codec, codec.typeTag, codec.classTag);
        if r.Ok? {
          var end := inner.VerifyEnd();
          if end.Err? {
            r := Err(end.failure);
          }
        }
    }

    /**
     OPTIONAL elements. Whatever was in the slot before, no internal push_back finds it occupied;
     a mismatch leaves the stream as reading and un-reading one object does.
     */
    method DecodeOptional<V>(codec: Codec<V>, t: nat, c: nat) returns (r: Result<Option<V>>)
      requires t != NO_OBJECT && codec.typeTag != NO_OBJECT
      modifies this
      ensures (r, Stream()) == Asn1.DecodeOptional(codec, t, c, old(Stream()))
      ensures r != Err(SlotOccupied)
    {
      var o := GetNextObject();
      if o.IsA(t, c) {
        var v: Result<V>;
        if c == EXPLICIT_CONTEXT_SPECIFIC {
          v := DecodeInside(codec, o);
        } else {
          var ok := PushBack(o);
          if !ok { return Err(SlotOccupied); }
          assert Stream() == old(Stream());
          v := Decode(codec, t, c);
        }
        r := ToOption(v);
      } else {
        var ok := PushBack(o);
        if !ok { return Err(SlotOccupied); }
        r := Ok(None);
      }
    }

    /** DEFAULT elements: an absent one takes the default value. */
    method DecodeOptionalDefault<V>(codec: Codec<V>, t: nat, c: nat, default: V) returns (r: Result<V>)
      requires t != NO_OBJECT && codec.typeTag != NO_OBJECT
      modifies this
      ensures var (o, rest) := Asn1.DecodeOptional(codec, t, c, old(Stream()));
        r == OrDefault(o, default) && Stream() == rest
      ensures r != Err(SlotOccupied)
    {
      var o := DecodeOptional(codec, t, c);
      r := OrDefault(o, default);
    }

    /** Implicit tagging: a matching object is relabelled with the tag its contents really have. */
    method DecodeOptionalImplicit<V>(codec: Codec<V>, t: nat, c: nat, realType: nat, realClass: nat, default: V)
      returns (r: Result<V>)
      requires t != NO_OBJECT && realType != NO_OBJECT
      modifies this
      ensures r == if Matches(t, c, old(Stream())) then DecodeContents(codec, old(Stream())[0].value) else Ok(default)
      ensures Stream() == if Matches(t, c, old(Stream())) then old(Stream())[1..] else Unread(old(Stream()))
      ensures r != Err(SlotOccupied)
    {
      var o := GetNextObject();
      if o.IsA(t, c) {
        o := o.(typeTag := realType, classTag := realClass);
        var ok := PushBack(o);
        if !ok { return Err(SlotOccupied); }
        r := Decode(codec, realType, realClass);
      } else {
        r := Ok(default);
        var ok := PushBack(o);
        if !ok { return Err(SlotOccupied); }
      }
    }

    /** OPTIONAL string types; an absent string reads as empty. */
    method DecodeOptionalString(codec: Codec<Bytes>, t: nat, c: nat) returns (r: Result<Bytes>)
      requires t != NO_OBJECT && codec.typeTag != NO_OBJECT
      modifies this
      ensures var (o, rest) := Asn1.DecodeOptional(codec, t, c, old(Stream()));
        r == OrDefault(o, []) && Stream() == rest
      ensures var s := old(Stream());
        if s == [] || s[0].typeTag != t || s[0].classTag != c then r == Ok([])
        else c != 0xA0 ==>
          Stream() == s[1..] && r == match codec.decode(s[0].value) case Some(v) => Ok(v) case None => Err(BadValue)
      ensures r != Err(SlotOccupied)
    {
      var o := GetNextObject();
      if o.IsA(t, c) {
        if c == EXPLICIT_CONTEXT_SPECIFIC {
          r := DecodeInside(codec, o);
        } else {
          var ok := PushBack(o);
          if !ok { return Err(SlotOccupied); }
          assert Stream() == old(Stream());
          r := Decode(codec, t, c);
        }
      } else {
        r := Ok([]);
        var ok := PushBack(o);
        if !ok { return Err(SlotOccupied); }
      }
    }

    // ---------- Lists ----------

    /** Opens a constructed object: the class looked for always has the constructed bit. */
    method StartCons(t: nat, c: nat) returns (r: Result<BerDecoder>)
      requires t != NO_OBJECT
      modifies this
      ensures Stream() == if old(Stream()) == [] then [] else old(Stream())[1..]
      ensures if !Matches(t, AsConstructed(c), old(Stream())) then r == Err(BadTag)
              else match old(Stream())[0].value
                   case Primitive(_) => r == Err(BadValue)
                   case Constructed(items) => r.Ok? && fresh(r.value) && r.value.Stream() == items && !r.value.pushed.IsSet()
    {
      var o := GetNextObject();
      if !o.IsA(t, AsConstructed(c)) {
        return Err(BadTag);
      }
      match o.value
      case Primitive(_) => r := Err(BadValue);
      case Constructed(items) =>
        var inner := new BerDecoder(items);
        r := Ok(inner);
    }

    /**
     Appends the decoded values to `vec`, those before a failing item included. The loop ends
     because every decode shrinks the inner stream.
     */
    method DecodeList<V>(codec: Codec<V>, t: nat, c: nat, vec: seq<V>) returns (r: Result<()>, out: seq<V>)
      requires t != NO_OBJECT && codec.typeTag != NO_OBJECT
      modifies this
      ensures var (r', vs) := Asn1.DecodeList(codec, t, c, old(Stream())); r == r' && out == vec + vs
      ensures Stream() == if old(Stream()) == [] then [] else old(Stream())[1..]
    {
      out := vec;
      var cons := StartCons(t, c);
      if cons.Err? {
        return Err(cons.failure), out;
      }
      var list := cons.value;
      ghost var items := list.Stream();
      ghost var outer := Stream();
      var more := list.MoreItems();
      while more
        invariant Stream() == outer && fresh(list) && list != this
        invariant more <==> list.Stream() != []
        invariant out + DecodeItems(codec, list.Stream()).1 == vec + DecodeItems(codec, items).1
        invariant DecodeItems(codec, list.Stream()).0 == DecodeItems(codec, items).0
        decreases |list.Stream()|
      {
        ghost var before := list.Stream();
        var v := list.Decode(codec, codec.typeTag, codec.classTag);
        if v.Err? {
          return Err(v.failure), out;
        }
        assert DecodeItems(codec, before).1 == [v.value] + DecodeItems(codec, before[1..]).1;
        assert (out + [v.value]) + DecodeItems(codec, before[1..]).1 == out + DecodeItems(codec, before).1;
        out := out + [v.value];
        more := list.MoreItems();
      }
      r := list.VerifyEnd();
    }

    /** Looks at the next object and decodes a list only if it has the given tag, bit for bit. */
    method DecodeOptionalList<V>(codec: Codec<V>, t: nat, c: nat, vec: seq<V>)
      returns (r: Result<bool>, out: seq<V>)
      requires t != NO_OBJECT && codec.typeTag != NO_OBJECT
      modifies this
      ensures !Matches(t, c, old(Stream())) ==> r == Ok(false) && out == vec && Stream() == Unread(old(Stream()))
      ensures Matches(t, c, old(Stream())) ==>
        var (r', vs) := Asn1.DecodeList(codec, t, c, old(Stream()));
        && r == (if r'.Ok? then Ok(true) else Err(r'.failure))
        && out == vec + vs && Stream() == old(Stream())[1..]
    {
      var next := PeekNextObject();
      if next.IsA(t, c) {
        assert Stream() == old(Stream());
        var l, vs := DecodeList(codec, t, c, vec);
        out := vs;
        r := if l.Ok? then Ok(true) else Err(l.failure);
      } else {
        out := vec;
        r := Ok(false);
      }
    }
  }
}
