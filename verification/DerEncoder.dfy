/** The DER encoder: an output of objects, and the constructed objects opened but not closed yet. */
module DerEncoder {
  import opened ByteTypes
  import opened Asn1

  /** A constructed object under way. */
  datatype Open = Open(typeTag: nat, classTag: nat, contents: seq<BerObject>) {
    function Object(): BerObject {
      BerObject(typeTag, AsConstructed(classTag), Constructed(contents))
    }

    /** The elements stay in the order in which they were added. */
    predicate InOrder() {
      typeTag != SET || |contents| <= 1
    }
  }

  /** The encoder's state as a value. */
  datatype Der = Der(output: seq<BerObject>, subsequences: seq<Open>) {
    /** An object goes into the innermost open object, or to the output. */
    function Add(o: BerObject): Der {
      if subsequences == [] then this.(output := output + [o])
      else
        var n := |subsequences| - 1;
        var last := subsequences[n];
        this.(subsequences := subsequences[..n] + [last.(contents := last.contents + [o])])
    }

    function AddAll(os: seq<BerObject>): Der
      decreases |os|
    {
      if os == [] then this else Add(os[0]).AddAll(os[1..])
    }

    function Begin(t: nat, c: nat): Der {
      this.(subsequences := subsequences + [Open(t, c, [])])
    }

    function End(): Der
      requires subsequences != []
    {
      var n := |subsequences| - 1;
      this.(subsequences := subsequences[..n]).Add(subsequences[n].Object())
    }
  }

  /** Outside any open object, adding is appending to the output. */
  lemma {:induction false} AddAllToOutput(d: Der, os: seq<BerObject>)
    requires d.subsequences == []
    ensures d.AddAll(os) == d.(output := d.output + os)
    decreases |os|
  {
    if os == [] {
      assert d.output + os == d.output;
    } else {
      AddAllToOutput(d.Add(os[0]), os[1..]);
      assert d.output + [os[0]] + os[1..] == d.output + os;
    }
  }

  lemma {:induction false} AddAllToOpen(d: Der, outer: seq<Open>, last: Open, os: seq<BerObject>)
    requires d.subsequences == outer + [last]
    ensures d.AddAll(os) == d.(subsequences := outer + [last.(contents := last.contents + os)])
    decreases |os|
  {
    if os == [] {
      assert last.contents + os == last.contents;
    } else {
      var last' := last.(contents := last.contents + [os[0]]);
      assert (outer + [last])[..|outer|] == outer;
      AddAllToOpen(d.Add(os[0]), outer, last', os[1..]);
      assert last.contents + [os[0]] + os[1..] == last.contents + os;
    }
  }

  /** Opening, adding and closing adds one object with these contents, at any depth of nesting. */
  lemma ConstructedIsOneObject(d: Der, t: nat, c: nat, os: seq<BerObject>)
    ensures var open := d.Begin(t, c).AddAll(os).subsequences; open != [] && open[|open| - 1] == Open(t, c, os)
    ensures d.Begin(t, c).AddAll(os).End() == d.Add(BerObject(t, AsConstructed(c), Constructed(os)))
  {
    AddAllToOpen(d.Begin(t, c), d.subsequences, Open(t, c, []), os);
    var closed := d.Begin(t, c).AddAll(os);
    assert [] + os == os;
    assert closed.subsequences[..|d.subsequences|] == d.subsequences;
  }

  class DerEncoder {
    var output: seq<BerObject>
    var subsequences: seq<Open>

    function State(): Der
      reads this
    {
      Der(output, subsequences)
    }

    constructor ()
      ensures State() == Der([], [])
    {
      output, subsequences := [], [];
    }

    method AddObject(o: BerObject)
      modifies this
      ensures State() == old(State()).Add(o)
    {
      if subsequences == [] {
        output := output + [o];
      } else {
        var n := |subsequences| - 1;
        var last := subsequences[n];
        subsequences := subsequences[..n] + [last.(contents := last.contents + [o])];
      }
    }

    method Encode<V>(codec: Codec<V>, v: V)
      modifies this
      ensures State() == old(State()).Add(codec.Object(v))
    {
      AddObject(codec.Object(v));
    }

    /** The same contents under a tag the caller names (implicit tagging, section 8.14 of X.690). */
    method EncodeTagged<V>(codec: Codec<V>, v: V, t: nat, c: nat)
      modifies this
      ensures State() == old(State()).Add(BerObject(t, c, codec.encode(v)))
    {
      AddObject(BerObject(t, c, codec.encode(v)));
    }

    method StartCons(t: nat, c: nat)
      modifies this
      ensures State() == old(State()).Begin(t, c)
    {
      subsequences := subsequences + [Open(t, c, [])];
    }

    /**
     Closes the innermost open object and adds it, with the constructed bit; fails if none is open.
     Not for a SET of several elements, which DER sorts.
     */
    method EndCons() returns (ok: bool)
      requires subsequences != [] ==> subsequences[|subsequences| - 1].InOrder()
      modifies this
      ensures ok <==> old(subsequences) != []
      ensures State() == if ok then old(State()).End() else old(State())
    {
      if subsequences == [] {
        return false;
      }
      var n := |subsequences| - 1;
      var last := subsequences[n];
      subsequences := subsequences[..n];
      AddObject(last.Object());
      ok := true;
    }

    /** An absent optional value leaves no trace. */
    method EncodeOptional<V>(codec: Codec<V>, value: Option<V>)
      modifies this
      ensures State() == if value.Some? then old(State()).Add(codec.Object(value.value)) else old(State())
    {
      if value.Some? {
        Encode(codec, value.value);
      }
    }

    /** A value equal to its default is omitted (section 11.5 of X.690). */
    method EncodeOptionalDefault<V(==)>(codec: Codec<V>, value: V, default: V)
      modifies this
      ensures State() == if value != default then old(State()).Add(codec.Object(value)) else old(State())
    {
      if value != default {
        Encode(codec, value);
      }
    }

    method EncodeList<V>(codec: Codec<V>, values: seq<V>)
      modifies this
      ensures State() == old(State()).AddAll(EncodeItems(codec, values))
    {
      var i := 0;
      while i != |values|
        invariant 0 <= i <= |values|
        invariant old(State()).AddAll(EncodeItems(codec, values)) == State().AddAll(EncodeItems(codec, values[i..]))
        decreases |values| - i
      {
        ghost var items := EncodeItems(codec, values[i..]);
        assert values[i..][1..] == values[i + 1..];
        assert items[0] == codec.Object(values[i]) && items[1..] == EncodeItems(codec, values[i + 1..]);
        Encode(codec, values[i]);
        i := i + 1;
      }
      assert EncodeItems(codec, values[i..]) == [];
    }

    /** start_cons, encode_list, end_cons: adds one object holding the items in order. */
    method EncodeListIn<V>(codec: Codec<V>, t: nat, c: nat, values: seq<V>) returns (ok: bool)
      requires t != SET || |values| <= 1
      modifies this
      ensures ok && State() == old(State()).Add(ListObject(codec, t, c, values))
    {
      ConstructedIsOneObject(State(), t, c, EncodeItems(codec, values));
      StartCons(t, c);
      EncodeList(codec, values);
      ok := EndCons();
    }
  }
}
