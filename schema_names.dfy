/** What the raw phase makes of a schema entry whose property names are not
    readable: the encoder writes any name, but the decoder ends an entry at
    an empty name. */
module SchemaNames {
  import opened Wrappers
  import opened BinaryUtils
  import opened Serializer
  import opened ReadableFormat
  import opened Agreement

  /** Without readable names the read-back fails. A bool property whose
      name is empty is written as the empty string, its code word 1 and the
      closing 0; the raw phase takes that empty name for the end of the
      entry and stops after the first byte, with no properties. */
  lemma EmptyNameEndsEntry()
    ensures var reg := map[Named(0) := [Property([], Prim(Boolean))]];
      && !ReadableNames(reg[Named(0)])
      && EntryBytes(reg, [], Named(0)) == [0, 1, 0, 0, 0, 0]
      && ParseEntry(EntryBytes(reg, [], Named(0)), 0) == Ok((CustomEntry([], false), 1))
  {
    var reg := map[Named(0) := [Property([], Prim(Boolean))]];
    EmptyNameBytes(reg[Named(0)]);
    var d: seq<byte> := [0, 1, 0, 0, 0, 0];
    assert ParseString(d, 0) == Ok(([], 1));
    assert ParseProps(d, 0) == Ok(([], 1));
  }

  lemma EmptyNameBytes(props: seq<Property>)
    requires props == [Property([], Prim(Boolean))]
    ensures PropertiesBytes([], props) == [0, 1, 0, 0, 0]
  {
    assert TypeIdWords([], Prim(Boolean)) == [1];
    assert PropertyBytes([], props[0]) == [0, 1, 0, 0, 0];
    PropertiesBytesCons([], props);
  }
}
