/** The decoder as it runs: methods that move a reader cursor and a type
    table whose entries the bind pass updates in place. Each is proved to
    do what the functions of module ReadableFormat say. */
module ReadableTypes {
  import opened Wrappers
  import opened BinaryUtils
  import opened ReadableFormat

  // ---------------------------------------------------------------------
  // Type codes

  /** Reads one type code against a table of count entries. */
  method ResolveType(reader: Reader, count: nat) returns (r: Result<Option<RType>>)
    requires reader.Valid()
    modifies reader
    ensures reader.Valid() && Follows(r, reader.pos, ParseType(reader.data, old(reader.pos), count))
    decreases |reader.data| - reader.pos
  {
    var typeId := reader.ReadUInt();
    if typeId.Err? {
      return Err(typeId.error);
    }
    var w := typeId.value;
    if w == 0 {
      return Ok(None);
    }
    if w == 1 {
      return Ok(Some(RBool));
    }
    if w == 2 {
      return Ok(Some(RInt));
    }
    if w == 3 {
      return Ok(Some(RDouble));
    }
    if w == 4 {
      return Ok(Some(RString));
    }
    if w == 5 {
      var item := ResolveType(reader, count);
      if item.Err? {
        return Err(item.error);
      }
      return Ok(Some(RArray(item.value)));
    }
    if w == 6 {
      return Ok(Some(RObject));
    }
    var index := IntOfUInt(w) - 7;
    if index < 0 || index >= count {
      return Err(IndexOutOfRange);
    }
    return Ok(Some(RCustom(index)));
  }

  // ---------------------------------------------------------------------
  // Raw schema entries

  /** Reads (name, word chain) pairs until an empty name; the chain of one
      property runs up to and including its first word that is not 5. */
  method ReadType(reader: Reader) returns (r: Result<CustomEntry>)
    requires reader.Valid()
    modifies reader
    ensures reader.Valid() && Follows(r, reader.pos, ParseEntry(reader.data, old(reader.pos)))
  {
    var props: seq<Prop> := [];
    PrependEmpty(ParseProps(reader.data, reader.pos));
    while true
      invariant reader.Valid()
      invariant ParseProps(reader.data, old(reader.pos)) == PrependTo(props, ParseProps(reader.data, reader.pos))
      decreases |reader.data| - reader.pos
    {
      ghost var here := reader.pos;
      var propName := reader.ReadString();
      if propName.Err? {
        return Err(propName.error);
      }
      if propName.value == [] {
        assert props + [] == props;
        break;
      }
      var typeIds: seq<u32> := [];
      ghost var chainStart := reader.pos;
      PrependEmpty(ParseChain(reader.data, chainStart));
      while true
        invariant reader.Valid() && chainStart <= reader.pos
        invariant ParseChain(reader.data, chainStart) == PrependTo(typeIds, ParseChain(reader.data, reader.pos))
        decreases |reader.data| - reader.pos
      {
        ghost var before := typeIds;
        var typeId := reader.ReadUInt();
        if typeId.Err? {
          return Err(typeId.error);
        }
        typeIds := typeIds + [typeId.value];
        if typeId.value != ArrayWord {
          break;
        }
        PrependTwice(before, [typeId.value], ParseChain(reader.data, reader.pos));
      }
      var prop := MakeProp(propName.value, typeIds);
      // the chain just read always ends in a word that is not 5
      assert prop.Ok?;
      PrependTwice(props, [prop.value], ParseProps(reader.data, reader.pos));
      props := props + [prop.value];
    }
    return Ok(CustomEntry(props, false));
  }

  // ---------------------------------------------------------------------
  // Binding

  /** Folds the stored chain from its last word to its first, each word
      giving a type from the one the words after it gave. */
  method UpdateProperty(p: Prop, count: nat) returns (r: Result<Prop>)
    ensures r == BindProp(p, count)
    ensures r.Ok? ==> r.value.name == p.name && r.value.typeIds == p.typeIds && OptInRange(r.value.ty, count)
  {
    var ty: Option<RType> := None;
    var i := |p.typeIds|;
    assert p.typeIds[i..] == [];
    while i > 0
      invariant 0 <= i <= |p.typeIds|
      invariant BindChain(p.typeIds[i..], count) == Ok(ty)
    {
      i := i - 1;
      assert p.typeIds[i..][1..] == p.typeIds[i + 1..];
      var step := WordType(p.typeIds[i], ty, count);
      if step.Err? {
        BindChainError(p.typeIds, i, count);
        return Err(step.error);
      }
      ty := step.value;
    }
    assert p.typeIds[0..] == p.typeIds;
    return Ok(p.(ty := ty));
  }

  /** Binding the suffix from j on, one property more. */
  lemma BindPropsStep(props: seq<Prop>, j: nat, count: nat)
    requires j < |props|
    ensures BindProps(props[j..], count) ==
      match BindProp(props[j], count)
      case Err(e) => (props[j..], Err(e))
      case Ok(p) => ([p] + BindProps(props[j + 1..], count).0, BindProps(props[j + 1..], count).1)
  {
    assert props[j..][1..] == props[j + 1..];
  }

  /** Binding the entries from i on, one entry more. */
  lemma BindEntriesStep(es: seq<CustomEntry>, i: nat, count: nat)
    requires i < |es|
    ensures BindEntries(es[i..], count) ==
      if BindEntry(es[i], count).1.Err? then ([BindEntry(es[i], count).0] + es[i + 1..], BindEntry(es[i], count).1)
      else ([BindEntry(es[i], count).0] + BindEntries(es[i + 1..], count).0, BindEntries(es[i + 1..], count).1)
  {
    assert es[i..][1..] == es[i + 1..];
  }

  /** Binding has gone through the first j properties: those are bound in
      cur, the others are still as read, and binding the rest finishes the
      whole pass. */
  ghost predicate BoundUpTo(props: seq<Prop>, count: nat, j: nat, cur: seq<Prop>) {
    && j <= |props| == |cur|
    && cur[j..] == props[j..]
    && BindProps(props, count) == (cur[..j] + BindProps(props[j..], count).0, BindProps(props[j..], count).1)
  }

  /** Before the first property. */
  lemma NoneBound(props: seq<Prop>, count: nat)
    ensures BoundUpTo(props, count, 0, props)
  {
    assert props[0..] == props && props[..0] == [];
    assert [] + BindProps(props, count).0 == BindProps(props, count).0;
  }

  /** Binding the j-th property succeeded: the bound prefix grows by one. */
  lemma PropertyBound(props: seq<Prop>, count: nat, j: nat, cur: seq<Prop>, p: Prop)
    requires BoundUpTo(props, count, j, cur) && j < |props| && BindProp(props[j], count) == Ok(p)
    ensures BoundUpTo(props, count, j + 1, cur[j := p])
  {
    var next := cur[j := p];
    BindPropsStep(props, j, count);
    assert next[..j + 1] == cur[..j] + [p];
    assert next[j + 1..] == cur[j + 1..] == cur[j..][1..];
    assert props[j..][1..] == props[j + 1..];
    Regroup(cur[..j], [p], BindProps(props[j + 1..], count).0);
  }

  /** Binding the j-th property failed: the pass stops with the prefix bound
      and the rest as read. */
  lemma PropertyUnbound(props: seq<Prop>, count: nat, j: nat, cur: seq<Prop>, e: Error)
    requires BoundUpTo(props, count, j, cur) && j < |props| && BindProp(props[j], count) == Err(e)
    ensures BindProps(props, count) == (cur, Err(e))
  {
    BindPropsStep(props, j, count);
    assert cur == cur[..j] + cur[j..];
  }

  /** Every property bound. */
  lemma AllBound(props: seq<Prop>, count: nat, cur: seq<Prop>)
    requires BoundUpTo(props, count, |props|, cur)
    ensures BindProps(props, count) == (cur, Ok(()))
  {
    assert props[|props|..] == [] && cur[..|props|] == cur;
    assert BindProps([], count) == ([], Ok(()));
    assert cur[..|props|] + [] == cur;
  }

  /** The table of custom types read from the schema block. */
  class TypeTable {
    var entries: seq<CustomEntry>

    constructor (entries: seq<CustomEntry>)
      ensures this.entries == entries
    {
      this.entries := entries;
    }

    /** Marks entry i bound, then binds its properties in order against a
        table of count entries; the first failure stops the pass. */
    method UpdateEntry(i: nat, count: nat) returns (r: Result<()>)
      requires i < |entries|
      modifies this
      ensures entries == old(entries)[i := BindEntry(old(entries)[i], count).0]
      ensures r == BindEntry(old(entries)[i], count).1
    {
      var props := entries[i].props;
      var cur := props;
      entries := entries[i := CustomEntry(cur, true)];
      NoneBound(props, count);
      var j := 0;
      while j < |props|
        invariant BoundUpTo(props, count, j, cur)
        invariant entries == old(entries)[i := CustomEntry(cur, true)]
      {
        var p := UpdateProperty(props[j], count);
        if p.Err? {
          PropertyUnbound(props, count, j, cur, p.error);
          return Err(p.error);
        }
        PropertyBound(props, count, j, cur, p.value);
        cur := cur[j := p.value];
        entries := entries[i := CustomEntry(cur, true)];
        j := j + 1;
      }
      AllBound(props, count, cur);
      return Ok(());
    }

    /** Binds every entry, in table order, against the whole table. */
    method UpdateCustomTypes() returns (r: Result<()>)
      modifies this
      ensures (entries, r) == BindTable(old(entries))
    {
      ghost var es := entries;
      var count := |entries|;
      assert es[0..] == es;
      assert entries[..0] + BindEntries(es, count).0 == BindEntries(es, count).0;
      for i := 0 to count
        invariant |entries| == count
        invariant entries[i..] == es[i..]
        invariant BindTable(es) == (entries[..i] + BindEntries(es[i..], count).0, BindEntries(es[i..], count).1)
      {
        BindEntriesStep(es, i, count);
        ghost var e := BindEntry(es[i], count).0;
        assert entries[i] == es[i];
        ghost var pre := entries;
        r := UpdateEntry(i, count);
        if r.Err? {
          assert entries == pre[..i] + ([e] + es[i + 1..]);
          return;
        }
        Regroup(pre[..i], [e], BindEntries(es[i + 1..], count).0);
        assert entries[..i + 1] == pre[..i] + [e];
        assert entries[i + 1..] == es[i + 1..];
      }
      assert entries[..count] + [] == entries;
      assert es[count..] == [];
      r := Ok(());
    }
  }

  // ---------------------------------------------------------------------
  // Reading values

  /** Reads a value of declared type t. */
  method Read(reader: Reader, table: seq<CustomEntry>, t: RType) returns (r: Result<Value>)
    requires reader.Valid() && TableWF(table) && InRange(t, |table|)
    modifies reader
    ensures reader.Valid() && Follows(r, reader.pos, ReadValue(table, t, reader.data, old(reader.pos)))
    decreases |reader.data| - reader.pos, 1
  {
    match t
    case RBool =>
      var b := reader.ReadBool();
      if b.Err? {
        return Err(b.error);
      }
      return Ok(Bool(b.value));
    case RInt =>
      var i := reader.ReadInt();
      if i.Err? {
        return Err(i.error);
      }
      return Ok(Int(i.value));
    case RDouble =>
      var bits := reader.ReadULong();
      if bits.Err? {
        return Err(bits.error);
      }
      return Ok(Dbl(bits.value));
    case RString =>
      r := ReadStr(reader);
    case RArray(item) =>
      r := ReadArray(reader, table, item);
    case RObject =>
      r := ReadMap(reader, table);
    case RCustom(index) =>
      r := ReadCustom(reader, table, index);
  }

  /** A header, then, unless null, a NUL-terminated string. */
  method ReadStr(reader: Reader) returns (r: Result<Value>)
    requires reader.Valid()
    modifies reader
    ensures reader.Valid() && Follows(r, reader.pos, ReadStringValue(reader.data, old(reader.pos)))
  {
    var header := reader.ReadByte();
    if header.Err? {
      return Err(header.error);
    }
    if header.value == 0 {
      return Ok(Null);
    }
    var s := reader.ReadString();
    if s.Err? {
      return Err(s.error);
    }
    return Ok(Str(s.value));
  }

  /** A value whose type is known, or whose type code is read first; a
      code of 0 is a format error. */
  method ReadTypedValue(reader: Reader, table: seq<CustomEntry>, known: Option<RType>) returns (r: Result<Value>)
    requires reader.Valid() && TableWF(table) && OptInRange(known, |table|)
    modifies reader
    ensures reader.Valid() && Follows(r, reader.pos, ReadTyped(table, known, reader.data, old(reader.pos)))
    decreases |reader.data| - reader.pos, 2
  {
    var t: RType;
    if known.Some? {
      t := known.value;
    } else {
      var code := ResolveType(reader, |table|);
      if code.Err? {
        return Err(code.error);
      }
      if code.value.None? {
        return Err(MissingType);
      }
      t := code.value.value;
    }
    r := Read(reader, table, t);
  }

  /** A header, then, unless null, a 32-bit count and that many elements. */
  method ReadArray(reader: Reader, table: seq<CustomEntry>, item: Option<RType>) returns (r: Result<Value>)
    requires reader.Valid() && TableWF(table) && OptInRange(item, |table|)
    modifies reader
    ensures reader.Valid() && Follows(r, reader.pos, ReadArrayValue(table, item, reader.data, old(reader.pos)))
    decreases |reader.data| - reader.pos, 0
  {
    var header := reader.ReadByte();
    if header.Err? {
      return Err(header.error);
    }
    if header.value == 0 {
      return Ok(Null);
    }
    var length := reader.ReadUInt();
    if length.Err? {
      return Err(length.error);
    }
    var items := ReadElements(reader, table, item, length.value);
    if items.Err? {
      return Err(items.error);
    }
    return Ok(Seq(items.value));
  }

  /** n elements of the item type, read one after the other; the first
      failure stops the loop. */
  method ReadElements(reader: Reader, table: seq<CustomEntry>, item: Option<RType>, n: nat)
    returns (r: Result<seq<Value>>)
    requires reader.Valid() && TableWF(table) && OptInRange(item, |table|)
    modifies reader
    ensures reader.Valid() && Follows(r, reader.pos, ReadItems(table, item, n, reader.data, old(reader.pos), []))
    decreases |reader.data| - reader.pos, 3
  {
    ghost var start := reader.pos;
    var items: seq<Value> := [];
    for i := 0 to n
      invariant reader.Valid() && start <= reader.pos
      invariant ReadItems(table, item, n, reader.data, start, []) == ReadItems(table, item, n - i, reader.data, reader.pos, items)
    {
      var v := ReadTypedValue(reader, table, item);
      if v.Err? {
        return Err(v.error);
      }
      items := items + [v.value];
    }
    return Ok(items);
  }

  /** A header, then, unless null, a 32-bit count and that many
      (key, type code, value) triples; a repeated key takes the later value. */
  method ReadMap(reader: Reader, table: seq<CustomEntry>) returns (r: Result<Value>)
    requires reader.Valid() && TableWF(table)
    modifies reader
    ensures reader.Valid() && Follows(r, reader.pos, ReadMapValue(table, reader.data, old(reader.pos)))
    decreases |reader.data| - reader.pos, 0
  {
    var header := reader.ReadByte();
    if header.Err? {
      return Err(header.error);
    }
    if header.value == 0 {
      return Ok(Null);
    }
    var length := reader.ReadUInt();
    if length.Err? {
      return Err(length.error);
    }
    var fields := ReadEntries(reader, table, length.value);
    if fields.Err? {
      return Err(fields.error);
    }
    return Ok(Record(fields.value));
  }

  /** n (key, type code, value) triples, each stored in turn into a
      dictionary that starts empty; the first failure stops the loop. */
  method ReadEntries(reader: Reader, table: seq<CustomEntry>, n: nat) returns (r: Result<seq<Field>>)
    requires reader.Valid() && TableWF(table)
    modifies reader
    ensures reader.Valid() && Follows(r, reader.pos, Stored([], ReadPairList(table, n, reader.data, old(reader.pos))))
    decreases |reader.data| - reader.pos, 3
  {
    ghost var start := reader.pos;
    var dict: seq<Field> := [];
    PairsNone(table, n, reader.data, start);
    ghost var left: nat := n;
    for i := 0 to n
      invariant left == n - i
      invariant reader.Valid() && PairsLeft(table, n, reader.data, start, left, reader.pos, dict)
    {
      ghost var at := reader.pos;
      var key := reader.ReadString();
      if key.Err? {
        PairsKeyError(table, n, reader.data, start, left, at, dict, key, reader.pos);
        return Err(key.error);
      }
      ghost var mid := reader.pos;
      var v := ReadTypedValue(reader, table, None);
      if v.Err? {
        PairsValueError(table, n, reader.data, start, left, at, dict, key, mid, v, reader.pos);
        return Err(v.error);
      }
      ghost var before := dict;
      dict := Put(dict, key.value, v.value);
      left := left - 1;
      PairsStep(table, n, reader.data, start, left + 1, left, at, before, key, mid, v, reader.pos, dict);
    }
    PairsDone(table, n, reader.data, start, reader.pos, dict);
    return Ok(dict);
  }

  /** Reading n pairs from start and storing them comes down to reading m
      more from pos and storing them into acc. */
  ghost predicate PairsLeft(table: seq<CustomEntry>, n: nat, data: seq<byte>, start: nat, m: nat, pos: nat,
                            acc: seq<Field>)
    requires TableWF(table)
  {
    && start <= pos <= |data|
    && Stored([], ReadPairList(table, n, data, start)) == Stored(acc, ReadPairList(table, m, data, pos))
  }

  lemma PairsNone(table: seq<CustomEntry>, n: nat, data: seq<byte>, start: nat)
    requires TableWF(table) && start <= |data|
    ensures PairsLeft(table, n, data, start, n, start, [])
  {
  }

  /** One more (key, value) pair read and stored: the rest of the pairs, one
      fewer, are read from where it ends. */
  lemma PairsStep(table: seq<CustomEntry>, n: nat, data: seq<byte>, start: nat, m: nat, m': nat,
                  pos: nat, acc: seq<Field>, key: Result<seq<byte>>, p: nat, v: Result<Value>, q: nat,
                  acc': seq<Field>)
    requires TableWF(table) && PairsLeft(table, n, data, start, m, pos, acc) && m == m' + 1
    requires key.Ok? && Follows(key, p, ParseString(data, pos))
    requires v.Ok? && Follows(v, q, ReadTyped(table, None, data, p))
    requires acc' == Put(acc, key.value, v.value)
    ensures PairsLeft(table, n, data, start, m', q, acc')
  {
    match ReadPairList(table, m', data, q)
    case Err(_) =>
    case Ok((rest, _)) => PutAllCons(acc, Field(key.value, v.value), rest);
  }

  /** A key that cannot be read ends the pairs with its error. */
  lemma PairsKeyError(table: seq<CustomEntry>, n: nat, data: seq<byte>, start: nat, m: nat,
                      pos: nat, acc: seq<Field>, key: Result<seq<byte>>, p: nat)
    requires TableWF(table) && PairsLeft(table, n, data, start, m, pos, acc) && m > 0
    requires key.Err? && Follows(key, p, ParseString(data, pos))
    ensures Stored([], ReadPairList(table, n, data, start)) == Err(key.error)
  {
  }

  /** A value that cannot be read ends the pairs with its error. */
  lemma PairsValueError(table: seq<CustomEntry>, n: nat, data: seq<byte>, start: nat, m: nat,
                        pos: nat, acc: seq<Field>, key: Result<seq<byte>>, p: nat, v: Result<Value>, q: nat)
    requires TableWF(table) && PairsLeft(table, n, data, start, m, pos, acc) && m > 0
    requires key.Ok? && Follows(key, p, ParseString(data, pos))
    requires v.Err? && Follows(v, q, ReadTyped(table, None, data, p))
    ensures Stored([], ReadPairList(table, n, data, start)) == Err(v.error)
  {
  }

  /** No pair left: the dictionary is acc, ending at pos. */
  lemma PairsDone(table: seq<CustomEntry>, n: nat, data: seq<byte>, start: nat, pos: nat, acc: seq<Field>)
    requires TableWF(table) && PairsLeft(table, n, data, start, 0, pos, acc)
    ensures Stored([], ReadPairList(table, n, data, start)) == Ok((acc, pos))
  {
  }

  /** An entry the bind pass has not reached cannot be read; otherwise a
      header, then, unless null, every property in entry order, each stored
      under its name. */
  method ReadCustom(reader: Reader, table: seq<CustomEntry>, index: nat) returns (r: Result<Value>)
    requires reader.Valid() && TableWF(table) && index < |table|
    modifies reader
    ensures reader.Valid() && Follows(r, reader.pos, ReadCustomValue(table, index, reader.data, old(reader.pos)))
    decreases |reader.data| - reader.pos, 0
  {
    if !table[index].bound {
      return Err(NotBound);
    }
    var header := reader.ReadByte();
    if header.Err? {
      return Err(header.error);
    }
    if header.value == 0 {
      return Ok(Null);
    }
    var props := table[index].props;
    ghost var start := reader.pos;
    var dict: seq<Field> := [];
    for j := 0 to |props|
      invariant reader.Valid() && start <= reader.pos
      invariant ReadFields(table, props, 0, reader.data, start, []) == ReadFields(table, props, j, reader.data, reader.pos, dict)
    {
      var v := ReadTypedValue(reader, table, props[j].ty);
      if v.Err? {
        return Err(v.error);
      }
      dict := Put(dict, props[j].name, v.value);
    }
    return Ok(Record(dict));
  }
}
