/** The decoder: type codes, the raw schema entries, the bind pass that
    turns stored word chains into types, and the readers that build a
    dynamic value tree.

    Custom types live in an arena: the table of entries read from the
    schema block, and a bound custom type is an index into it. Binding runs
    only after every entry exists, so an entry may refer to itself or to an
    entry that comes after it. */
module ReadableFormat {
  import opened Wrappers
  import opened BinaryUtils

  /** A bound type. */
  datatype RType =
    | RBool
    | RInt
    | RDouble
    | RString
    | RArray(item: Option<RType>) // None: every element carries its own type code
    | RObject                     // a string-keyed map whose values carry their type codes
    | RCustom(index: nat)         // an entry of the custom type table

  /** Every custom reference in t points into a table of count entries. */
  predicate InRange(t: RType, count: nat) {
    match t
    case RArray(Some(item)) => InRange(item, count)
    case RCustom(i) => i < count
    case _ => true
  }

  predicate OptInRange(t: Option<RType>, count: nat) {
    t.None? || InRange(t.value, count)
  }

  const ArrayWord: u32 := 5

  // ---------------------------------------------------------------------
  // Type codes (ResolveType)

  /** Code w >= 7 names entry (int)w - 7 of the table; the cast to a signed
      32-bit int turns codes from 2^31 up into negative indices. */
  function CustomRef(w: u32, count: nat): (r: Result<Option<RType>>)
    requires w >= 7
    ensures r.Ok? <==> w < 0x8000_0000 && w - 7 < count
    ensures r.Ok? ==> r.value == Some(RCustom(w - 7))
    ensures r.Err? ==> r.error == IndexOutOfRange
  {
    var index := IntOfUInt(w) - 7;
    if 0 <= index < count then Ok(Some(RCustom(index))) else Err(IndexOutOfRange)
  }

  /** The type one word denotes, given the type the words after it denote:
      0 is absent, 1 to 4 the primitives, 5 an array of the inner type, 6 a
      map and 7 up a table entry. */
  function WordType(w: u32, inner: Option<RType>, count: nat): (r: Result<Option<RType>>)
    ensures w < 7 ==> r.Ok?
    ensures r.Ok? && OptInRange(inner, count) ==> OptInRange(r.value, count)
    ensures w == 0 <==> r == Ok(None)
  {
    if w == 0 then Ok(None)
    else if w == 1 then Ok(Some(RBool))
    else if w == 2 then Ok(Some(RInt))
    else if w == 3 then Ok(Some(RDouble))
    else if w == 4 then Ok(Some(RString))
    else if w == 5 then Ok(Some(RArray(inner)))
    else if w == 6 then Ok(Some(RObject))
    else CustomRef(w, count)
  }

  /** One type code read from the stream: a 5 wraps the type read after it
      in an array; any other word ends the code. */
  function ParseType(data: seq<byte>, pos: nat, count: nat): (r: Result<(Option<RType>, nat)>)
    ensures r.Ok? ==> pos + 4 <= r.value.1 <= |data| && OptInRange(r.value.0, count)
    decreases |data| - pos
  {
    match ParseUInt(data, pos)
    case Err(e) => Err(e)
    case Ok((w, p)) =>
      if w == ArrayWord then
        match ParseType(data, p, count)
        case Err(e) => Err(e)
        case Ok((item, q)) => Ok((Some(RArray(item)), q))
      else
        match WordType(w, None, count)
        case Err(e) => Err(e)
        case Ok(t) => Ok((t, p))
  }

  // ---------------------------------------------------------------------
  // Raw schema entries (CustomReadableType.ReadType)

  /** A property as stored by the raw phase; ty stays None until binding,
      and also after binding when the chain ends in 0. */
  datatype Prop = Prop(name: seq<byte>, typeIds: seq<u32>, ty: Option<RType>)

  /** A custom type: its properties, and whether the bind pass reached it. */
  datatype CustomEntry = CustomEntry(props: seq<Prop>, bound: bool)

  /** Some 5s and then one word that is not 5. */
  predicate ChainShape(ids: seq<u32>) {
    && |ids| > 0
    && ids[|ids| - 1] != ArrayWord
    && forall i :: 0 <= i < |ids| - 1 ==> ids[i] == ArrayWord
  }

  /** The words of one type code, up to and including the first non-5. */
  function ParseChain(data: seq<byte>, pos: nat): (r: Result<(seq<u32>, nat)>)
    ensures r.Ok? ==> ChainShape(r.value.0) && r.value.1 == pos + 4 * |r.value.0| <= |data|
    ensures r.Err? ==> r.error == EndOfStream
    decreases |data| - pos
  {
    match ParseUInt(data, pos)
    case Err(e) => Err(e)
    case Ok((w, p)) =>
      if w != ArrayWord then Ok(([w], p))
      else PrependTo([w], ParseChain(data, p))
  }

  /** The property constructor refuses an empty chain and one ending in 5. */
  function MakeProp(name: seq<byte>, ids: seq<u32>): (r: Result<Prop>)
    ensures r.Ok? <==> |ids| > 0 && ids[|ids| - 1] != ArrayWord
    ensures r.Ok? ==> r.value == Prop(name, ids, None)
  {
    if |ids| == 0 || ids[|ids| - 1] == ArrayWord then Err(BadTypeChain)
    else Ok(Prop(name, ids, None))
  }

  /** Properties of one entry: (name, word chain) pairs up to an empty name. */
  function ParseProps(data: seq<byte>, pos: nat): (r: Result<(seq<Prop>, nat)>)
    ensures r.Ok? ==> pos < r.value.1 <= |data|
    decreases |data| - pos
  {
    match ParseString(data, pos)
    case Err(e) => Err(e)
    case Ok((name, p)) =>
      if name == [] then Ok(([], p))
      else
        match ParseChain(data, p)
        case Err(e) => Err(e)
        case Ok((ids, q)) =>
          match MakeProp(name, ids)
          case Err(e) => Err(e)
          case Ok(prop) => PrependTo([prop], ParseProps(data, q))
  }

  /** A raw entry: its properties, not yet bound. */
  function ParseEntry(data: seq<byte>, pos: nat): (r: Result<(CustomEntry, nat)>)
    ensures r.Ok? ==> !r.value.0.bound
  {
    match ParseProps(data, pos)
    case Err(e) => Err(e)
    case Ok((props, p)) => Ok((CustomEntry(props, false), p))
  }

  /** What the raw phase stores: a non-empty, NUL-free name and a chain of
      the right shape, not yet bound. */
  predicate RawProp(p: Prop) {
    p.name != [] && 0 !in p.name && ChainShape(p.typeIds) && p.ty.None?
  }

  lemma {:induction false} ParsePropsShape(data: seq<byte>, pos: nat)
    ensures ParseProps(data, pos).Ok? ==>
      forall i :: 0 <= i < |ParseProps(data, pos).value.0| ==> RawProp(ParseProps(data, pos).value.0[i])
    ensures ParseProps(data, pos) != Err(BadTypeChain)
    decreases |data| - pos
  {
    match ParseString(data, pos)
    case Err(e) =>
    case Ok((name, p)) =>
      if name != [] {
        match ParseChain(data, p)
        case Err(e) =>
        case Ok((ids, q)) =>
          ParsePropsShape(data, q);
          var prop := Prop(name, ids, None);
          match ParseProps(data, q)
          case Err(e) =>
          case Ok((rest, q')) =>
            assert ParseProps(data, pos).value.0 == [prop] + rest;
      }
  }

  // ---------------------------------------------------------------------
  // Binding (ReadableProperty.Update, CustomReadableType.Update,
  // UpdateCustomTypes)

  /** The right-to-left fold over a stored chain: each word in turn, from
      the last to the first, given the type the words after it denote. */
  function BindChain(ids: seq<u32>, count: nat): (r: Result<Option<RType>>)
    ensures r.Ok? ==> OptInRange(r.value, count)
    decreases |ids|
  {
    if ids == [] then Ok(None)
    else
      match BindChain(ids[1..], count)
      case Err(e) => Err(e)
      case Ok(inner) => WordType(ids[0], inner, count)
  }

  function BindProp(p: Prop, count: nat): Result<Prop> {
    match BindChain(p.typeIds, count)
    case Err(e) => Err(e)
    case Ok(t) => Ok(p.(ty := t))
  }

  /** Binding properties in order; the first failure stops the pass and
      leaves that property and the later ones as they were. */
  function BindProps(props: seq<Prop>, count: nat): (r: (seq<Prop>, Result<()>))
    ensures |r.0| == |props|
    decreases |props|
  {
    if props == [] then ([], Ok(()))
    else
      match BindProp(props[0], count)
      case Err(e) => (props, Err(e))
      case Ok(p) =>
        var (rest, res) := BindProps(props[1..], count);
        ([p] + rest, res)
  }

  /** An entry is marked bound before its properties are bound. */
  function BindEntry(e: CustomEntry, count: nat): (CustomEntry, Result<()>) {
    var (props, res) := BindProps(e.props, count);
    (CustomEntry(props, true), res)
  }

  /** Binding every entry in table order against the whole table. */
  function BindEntries(es: seq<CustomEntry>, count: nat): (r: (seq<CustomEntry>, Result<()>))
    ensures |r.0| == |es|
    decreases |es|
  {
    if es == [] then ([], Ok(()))
    else
      var (e, res) := BindEntry(es[0], count);
      if res.Err? then ([e] + es[1..], res)
      else
        var (rest, res') := BindEntries(es[1..], count);
        ([e] + rest, res')
  }

  function BindTable(es: seq<CustomEntry>): (seq<CustomEntry>, Result<()>) {
    BindEntries(es, |es|)
  }

  /** Every bound property type refers into the table. */
  ghost predicate TableWF(table: seq<CustomEntry>) {
    forall i, j :: 0 <= i < |table| && 0 <= j < |table[i].props| ==> OptInRange(table[i].props[j].ty, |table|)
  }

  // ---------------------------------------------------------------------
  // Values (the Read methods)

  datatype Value =
    | Null
    | Bool(b: bool)
    | Int(i: i32)
    | Dbl(bits: u64)
    | Str(s: seq<byte>)
    | Seq(items: seq<Value>)
    | Record(fields: seq<Field>)

  /** One dictionary slot, in insertion order. */
  datatype Field = Field(key: seq<byte>, value: Value)

  function Keys(fields: seq<Field>): set<seq<byte>> {
    set i | 0 <= i < |fields| :: fields[i].key
  }

  predicate UniqueKeys(fields: seq<Field>) {
    forall i, j :: 0 <= i < j < |fields| ==> fields[i].key != fields[j].key
  }

  function Lookup(fields: seq<Field>, key: seq<byte>): Option<Value> {
    if fields == [] then None
    else if fields[0].key == key then Some(fields[0].value)
    else Lookup(fields[1..], key)
  }

  /** dict[key] = v: a present key keeps its slot and takes the new value;
      a new key goes last. */
  function Put(fields: seq<Field>, key: seq<byte>, v: Value): (r: seq<Field>)
    ensures Keys(r) == Keys(fields) + {key}
    ensures |r| == if key in Keys(fields) then |fields| else |fields| + 1
    decreases |fields|
  {
    KeysCons(fields);
    if fields == [] then
      KeysCons([Field(key, v)]);
      [Field(key, v)]
    else if fields[0].key == key then
      KeysCons([Field(key, v)] + fields[1..]);
      [Field(key, v)] + fields[1..]
    else
      var rest := Put(fields[1..], key, v);
      KeysCons([fields[0]] + rest);
      [fields[0]] + rest
  }

  lemma KeysCons(fields: seq<Field>)
    ensures fields != [] ==> Keys(fields) == {fields[0].key} + Keys(fields[1..])
  {
    if fields != [] {
      forall k | k in Keys(fields) ensures k in {fields[0].key} + Keys(fields[1..]) {
        var i :| 0 <= i < |fields| && fields[i].key == k;
        if i > 0 {
          assert fields[1..][i - 1].key == k;
        }
      }
      forall k | k in Keys(fields[1..]) ensures k in Keys(fields) {
        var i :| 0 <= i < |fields[1..]| && fields[1..][i].key == k;
        assert fields[i + 1].key == k;
      }
    }
  }
  /** A header byte in front of a nullable value: 0 means null. */
  function ParseHeader(data: seq<byte>, pos: nat): (r: Result<(bool, nat)>)
    ensures r.Ok? <==> pos < |data|
    ensures r.Ok? ==> r.value == (data[pos] != 0, pos + 1)
  {
    match ParseByte(data, pos)
    case Err(e) => Err(e)
    case Ok((h, p)) => Ok((h != 0, p))
  }

  /** The value of declared type t at pos. Bool, Int and Double have no
      header; a string, an array, a map and a custom value do. */
  function ReadValue(table: seq<CustomEntry>, t: RType, data: seq<byte>, pos: nat): (r: Result<(Value, nat)>)
    requires TableWF(table) && InRange(t, |table|) && pos <= |data|
    ensures r.Ok? ==> pos < r.value.1 <= |data|
    ensures t == RBool ==> (r.Ok? <==> pos + 1 <= |data|) && (r.Ok? ==> r.value.1 == pos + 1)
    ensures t == RInt ==> (r.Ok? <==> pos + 4 <= |data|) && (r.Ok? ==> r.value.1 == pos + 4)
    ensures t == RDouble ==> (r.Ok? <==> pos + 8 <= |data|) && (r.Ok? ==> r.value.1 == pos + 8)
    decreases |data| - pos, 1
  {
    match t
    case RBool => (
      match ParseBool(data, pos)
      case Err(e) => Err(e)
      case Ok((b, p)) => Ok((Bool(b), p)))
    case RInt => (
      match ParseInt(data, pos)
      case Err(e) => Err(e)
      case Ok((i, p)) => Ok((Int(i), p)))
    case RDouble => (
      match ParseULong(data, pos)
      case Err(e) => Err(e)
      case Ok((bits, p)) => Ok((Dbl(bits), p)))
    case RString => ReadStringValue(data, pos)
    case RArray(item) => ReadArrayValue(table, item, data, pos)
    case RObject => ReadMapValue(table, data, pos)
    case RCustom(index) => ReadCustomValue(table, index, data, pos)
  }

  /** A header, then, unless null, a NUL-terminated string. */
  function ReadStringValue(data: seq<byte>, pos: nat): (r: Result<(Value, nat)>)
    ensures r.Ok? ==> pos < r.value.1 <= |data|
    ensures pos < |data| && data[pos] == 0 ==> r == Ok((Null, pos + 1))
    ensures r.Ok? && r.value.0 != Null ==> r.value.0.Str? && 0 !in r.value.0.s
  {
    match ParseHeader(data, pos)
    case Err(e) => Err(e)
    case Ok((present, p)) =>
      if !present then Ok((Null, p))
      else
        match ParseString(data, p)
        case Err(e) => Err(e)
        case Ok((s, q)) => Ok((Str(s), q))
  }

  /** A header, then, unless null, a 32-bit count and that many elements. */
  function ReadArrayValue(table: seq<CustomEntry>, item: Option<RType>, data: seq<byte>, pos: nat)
    : (r: Result<(Value, nat)>)
    requires TableWF(table) && OptInRange(item, |table|) && pos <= |data|
    ensures r.Ok? ==> pos < r.value.1 <= |data|
    ensures pos < |data| && data[pos] == 0 ==> r == Ok((Null, pos + 1))
    ensures r.Ok? && r.value.0 != Null ==>
      r.value.0.Seq? && ParseUInt(data, pos + 1).Ok? && |r.value.0.items| == ParseUInt(data, pos + 1).value.0
    decreases |data| - pos, 0
  {
    match ParseHeader(data, pos)
    case Err(e) => Err(e)
    case Ok((present, p)) =>
      if !present then Ok((Null, p))
      else
        match ParseUInt(data, p)
        case Err(e) => Err(e)
        case Ok((n, q)) =>
          match ReadItems(table, item, n, data, q, [])
          case Err(e) => Err(e)
          case Ok((items, q')) => Ok((Seq(items), q'))
  }

  /** A header, then, unless null, a 32-bit count and that many
      (key, type code, value) triples. */
  function ReadMapValue(table: seq<CustomEntry>, data: seq<byte>, pos: nat): (r: Result<(Value, nat)>)
    requires TableWF(table) && pos <= |data|
    ensures r.Ok? ==> pos < r.value.1 <= |data|
    ensures pos < |data| && data[pos] == 0 ==> r == Ok((Null, pos + 1))
    ensures r.Ok? && r.value.0 != Null ==> r.value.0.Record? && UniqueKeys(r.value.0.fields)
    decreases |data| - pos, 0
  {
    match ParseHeader(data, pos)
    case Err(e) => Err(e)
    case Ok((present, p)) =>
      if !present then Ok((Null, p))
      else
        match ParseUInt(data, p)
        case Err(e) => Err(e)
        case Ok((n, q)) =>
          match ReadPairList(table, n, data, q)
          case Err(e) => Err(e)
          case Ok((kvs, q')) => Ok((Record(PutAll([], kvs)), q'))
  }

  /** An unbound entry cannot be read; otherwise a header, then, unless
      null, every property in entry order. */
  function ReadCustomValue(table: seq<CustomEntry>, index: nat, data: seq<byte>, pos: nat)
    : (r: Result<(Value, nat)>)
    requires TableWF(table) && index < |table| && pos <= |data|
    ensures r.Ok? ==> pos < r.value.1 <= |data|
    ensures !table[index].bound ==> r == Err(NotBound)
    ensures table[index].bound && pos < |data| && data[pos] == 0 ==> r == Ok((Null, pos + 1))
    ensures r.Ok? && r.value.0 != Null ==>
      && r.value.0.Record?
      && UniqueKeys(r.value.0.fields)
      && Keys(r.value.0.fields) == set k | 0 <= k < |table[index].props| :: table[index].props[k].name
    decreases |data| - pos, 0
  {
    if !table[index].bound then Err(NotBound)
    else
      match ParseHeader(data, pos)
      case Err(e) => Err(e)
      case Ok((present, p)) =>
        if !present then Ok((Null, p))
        else
          match ReadFields(table, table[index].props, 0, data, p, [])
          case Err(e) => Err(e)
          case Ok((fields, q)) => Ok((Record(fields), q))
  }

  /** A value whose type is known, or else is read from the stream first; a
      code of 0 there is a missing type. */
  function ReadTyped(table: seq<CustomEntry>, known: Option<RType>, data: seq<byte>, pos: nat)
    : (r: Result<(Value, nat)>)
    requires TableWF(table) && OptInRange(known, |table|) && pos <= |data|
    ensures r.Ok? ==> pos < r.value.1 <= |data|
    decreases |data| - pos, 2
  {
    match known
    case Some(t) => ReadValue(table, t, data, pos)
    case None =>
      match ParseType(data, pos, |table|)
      case Err(e) => Err(e)
      case Ok((None, _)) => Err(MissingType)
      case Ok((Some(t), p)) => ReadValue(table, t, data, p)
  }

  /** n more array elements after the ones in acc. */
  function ReadItems(table: seq<CustomEntry>, item: Option<RType>, n: nat, data: seq<byte>, pos: nat,
                     acc: seq<Value>): (r: Result<(seq<Value>, nat)>)
    requires TableWF(table) && OptInRange(item, |table|) && pos <= |data|
    ensures r.Ok? ==> pos <= r.value.1 <= |data| && |r.value.0| == |acc| + n && r.value.0[..|acc|] == acc
    decreases |data| - pos, 3, n
  {
    if n == 0 then Ok((acc, pos))
    else
      match ReadTyped(table, item, data, pos)
      case Err(e) => Err(e)
      case Ok((v, p)) => ReadItems(table, item, n - 1, data, p, acc + [v])
  }

  /** The next n (key, type code, value) triples, as (key, value) pairs in
      stream order. */
  function ReadPairList(table: seq<CustomEntry>, n: nat, data: seq<byte>, pos: nat)
    : (r: Result<(seq<Field>, nat)>)
    requires TableWF(table) && pos <= |data|
    ensures r.Ok? ==> pos <= r.value.1 <= |data| && |r.value.0| == n
    ensures r.Ok? ==> forall m :: 0 <= m < n ==> 0 !in r.value.0[m].key
    decreases |data| - pos, 3, n
  {
    if n == 0 then Ok(([], pos))
    else
      match ParseString(data, pos)
      case Err(e) => Err(e)
      case Ok((key, p)) =>
        match ReadTyped(table, None, data, p)
        case Err(e) => Err(e)
        case Ok((v, q)) =>
          match ReadPairList(table, n - 1, data, q)
          case Err(e) => Err(e)
          case Ok((rest, q')) => Ok(([Field(key, v)] + rest, q'))
  }

  /** The properties from index j on, each stored under its name. */
  function ReadFields(table: seq<CustomEntry>, props: seq<Prop>, j: nat, data: seq<byte>, pos: nat,
                      acc: seq<Field>): (r: Result<(seq<Field>, nat)>)
    requires TableWF(table) && j <= |props| && pos <= |data|
    requires forall k :: 0 <= k < |props| ==> OptInRange(props[k].ty, |table|)
    ensures r.Ok? ==> pos <= r.value.1 <= |data|
    ensures r.Ok? ==> Keys(r.value.0) == Keys(acc) + set k | j <= k < |props| :: props[k].name
    ensures r.Ok? && UniqueKeys(acc) ==> UniqueKeys(r.value.0)
    decreases |data| - pos, 3, |props| - j
  {
    if j == |props| then Ok((acc, pos))
    else
      match ReadTyped(table, props[j].ty, data, pos)
      case Err(e) => Err(e)
      case Ok((v, p)) =>
        PutKeepsUnique(acc, props[j].name, v);
        ReadFields(table, props, j + 1, data, p, Put(acc, props[j].name, v))
  }

  // ---------------------------------------------------------------------
  // Properties of the type codes and of the bind pass

  /** A word that can end a type code in a table of count entries. */
  predicate CodeValid(w: u32, count: nat) {
    w < 7 || (w < 0x8000_0000 && w - 7 < count)
  }

  /** t wrapped in k arrays. */
  function ArrayOf(k: nat, t: Option<RType>): Option<RType> {
    if k == 0 then t else Some(RArray(ArrayOf(k - 1, t)))
  }

  /** A parsed chain, then folded. */
  function BindParsed(r: Result<(seq<u32>, nat)>, count: nat): Result<(Option<RType>, nat)> {
    match r
    case Err(e) => Err(e)
    case Ok((ids, p)) =>
      match BindChain(ids, count)
      case Err(e) => Err(e)
      case Ok(t) => Ok((t, p))
  }

  /** Reading a type code directly and storing its words to fold them
      later give the same type and stop at the same place. */
  lemma {:induction false} ResolveIsBoundChain(data: seq<byte>, pos: nat, count: nat)
    ensures ParseType(data, pos, count) == BindParsed(ParseChain(data, pos), count)
    decreases |data| - pos
  {
    match ParseUInt(data, pos)
    case Err(e) =>
    case Ok((w, p)) =>
      if w == ArrayWord {
        ResolveIsBoundChain(data, p, count);
        match ParseChain(data, p)
        case Err(e) =>
        case Ok((ids, q)) =>
          assert ([w] + ids)[1..] == ids;
      } else {
        assert [w][1..] == [];
        assert BindChain([w], count) == WordType(w, None, count);
      }
  }

  /** A word the fold cannot bind stops it: the whole chain fails with the
      error of its last bad word. */
  lemma {:induction false} BindChainError(ids: seq<u32>, i: nat, count: nat)
    requires i <= |ids| && BindChain(ids[i..], count).Err?
    ensures BindChain(ids, count) == BindChain(ids[i..], count)
    decreases i
  {
    if i > 0 {
      assert ids[1..][i - 1..] == ids[i..];
      BindChainError(ids[1..], i - 1, count);
    } else {
      assert ids[0..] == ids;
    }
  }

  /** A chain of k 5s and a last word binds exactly when the last word is a
      valid code, and then to k arrays around that word's type. */
  lemma {:induction false} BindChainShape(ids: seq<u32>, count: nat)
    requires ChainShape(ids)
    ensures BindChain(ids, count).Ok? <==> CodeValid(ids[|ids| - 1], count)
    ensures BindChain(ids, count).Ok? ==>
      BindChain(ids, count).value == ArrayOf(|ids| - 1, WordType(ids[|ids| - 1], None, count).value)
    decreases |ids|
  {
    if |ids| == 1 {
      assert ids[1..] == [];
    } else {
      var tail := ids[1..];
      assert tail[|tail| - 1] == ids[|ids| - 1];
      assert forall i :: 0 <= i < |tail| - 1 ==> tail[i] == ids[i + 1];
      BindChainShape(tail, count);
    }
  }

  /** The properties bind exactly when every chain binds, and then each
      takes its chain's type and keeps its name and words. */
  lemma {:induction false} BindPropsSpec(props: seq<Prop>, count: nat)
    ensures BindProps(props, count).1.Ok? <==>
      forall j :: 0 <= j < |props| ==> BindChain(props[j].typeIds, count).Ok?
    ensures BindProps(props, count).1.Ok? ==>
      forall j :: 0 <= j < |props| ==>
        BindProps(props, count).0[j] == props[j].(ty := BindChain(props[j].typeIds, count).value)
    decreases |props|
  {
    if props != [] {
      var tail := props[1..];
      BindPropsSpec(tail, count);
      assert forall j :: 1 <= j < |props| ==> props[j] == tail[j - 1];
    }
  }

  /** The table binds exactly when every chain of every entry binds against
      the whole table, wherever the entry it names sits; then every entry is
      marked bound and every property takes its chain's type. */
  lemma {:induction false} BindEntriesSpec(es: seq<CustomEntry>, count: nat)
    ensures BindEntries(es, count).1.Ok? <==>
      forall i, j :: 0 <= i < |es| && 0 <= j < |es[i].props| ==> BindChain(es[i].props[j].typeIds, count).Ok?
    ensures BindEntries(es, count).1.Ok? ==>
      forall i :: 0 <= i < |es| ==>
        && BindEntries(es, count).0[i].bound
        && BindEntries(es, count).0[i].props == BindProps(es[i].props, count).0
    decreases |es|
  {
    if es != [] {
      var tail := es[1..];
      BindPropsSpec(es[0].props, count);
      BindEntriesSpec(tail, count);
      assert forall i :: 1 <= i < |es| ==> es[i] == tail[i - 1];
    }
  }

  /** With every chain well formed and every last word a valid code, the
      bind pass succeeds. */
  lemma BindTableSucceeds(es: seq<CustomEntry>)
    requires forall i, j :: 0 <= i < |es| && 0 <= j < |es[i].props| ==>
      ChainShape(es[i].props[j].typeIds) && CodeValid(es[i].props[j].typeIds[|es[i].props[j].typeIds| - 1], |es|)
    ensures BindTable(es).1.Ok?
    ensures forall i :: 0 <= i < |es| ==> BindTable(es).0[i].bound
  {
    forall i, j | 0 <= i < |es| && 0 <= j < |es[i].props|
      ensures BindChain(es[i].props[j].typeIds, |es|).Ok?
    {
      BindChainShape(es[i].props[j].typeIds, |es|);
    }
    BindEntriesSpec(es, |es|);
    assert BindTable(es) == BindEntries(es, |es|);
  }

  /** Binding keeps every stored type inside the table, also when it stops
      early. */
  lemma {:induction false} BindEntriesInRange(es: seq<CustomEntry>, count: nat)
    requires forall i, j :: 0 <= i < |es| && 0 <= j < |es[i].props| ==> OptInRange(es[i].props[j].ty, count)
    ensures forall i, j :: 0 <= i < |es| && 0 <= j < |BindEntries(es, count).0[i].props| ==>
      OptInRange(BindEntries(es, count).0[i].props[j].ty, count)
    decreases |es|
  {
    if es != [] {
      BindPropsInRange(es[0].props, count);
      var tail := es[1..];
      assert forall i :: 1 <= i < |es| ==> es[i] == tail[i - 1];
      BindEntriesInRange(tail, count);
    }
  }

  lemma {:induction false} BindPropsInRange(props: seq<Prop>, count: nat)
    requires forall j :: 0 <= j < |props| ==> OptInRange(props[j].ty, count)
    ensures forall j :: 0 <= j < |props| ==> OptInRange(BindProps(props, count).0[j].ty, count)
    decreases |props|
  {
    if props != [] {
      var tail := props[1..];
      assert forall j :: 1 <= j < |props| ==> props[j] == tail[j - 1];
      BindPropsInRange(tail, count);
    }
  }

  lemma BindTableWF(es: seq<CustomEntry>)
    requires TableWF(es)
    ensures TableWF(BindTable(es).0)
  {
    BindEntriesInRange(es, |es|);
  }

  // ---------------------------------------------------------------------
  // Properties of the dictionary

  /** After dict[key] = v, key holds v. */
  lemma {:induction false} PutLookup(fields: seq<Field>, key: seq<byte>, v: Value)
    ensures Lookup(Put(fields, key, v), key) == Some(v)
    decreases |fields|
  {
    if fields != [] && fields[0].key != key {
      PutLookup(fields[1..], key, v);
      assert Put(fields, key, v)[1..] == Put(fields[1..], key, v);
    }
  }

  /** dict[key] = v leaves every other key as it was. */
  lemma {:induction false} PutOther(fields: seq<Field>, key: seq<byte>, v: Value, other: seq<byte>)
    requires other != key
    ensures Lookup(Put(fields, key, v), other) == Lookup(fields, other)
    decreases |fields|
  {
    if fields == [] {
      assert Put(fields, key, v)[1..] == [];
    } else if fields[0].key == key {
      assert Put(fields, key, v)[1..] == fields[1..];
    } else {
      PutOther(fields[1..], key, v, other);
      assert Put(fields, key, v)[1..] == Put(fields[1..], key, v);
    }
  }

  /** dict[key] = v never makes a second slot for a key. */
  lemma {:induction false} PutUnique(fields: seq<Field>, key: seq<byte>, v: Value)
    requires UniqueKeys(fields)
    ensures UniqueKeys(Put(fields, key, v))
    decreases |fields|
  {
    if fields != [] && fields[0].key != key {
      var tail := fields[1..];
      assert UniqueKeys(tail) by {
        forall i, j | 0 <= i < j < |tail| ensures tail[i].key != tail[j].key {
          assert tail[i] == fields[i + 1] && tail[j] == fields[j + 1];
        }
      }
      PutUnique(tail, key, v);
      var rest := Put(tail, key, v);
      var r := [fields[0]] + rest;
      forall j | 0 < j < |r| ensures r[0].key != r[j].key {
        assert r[j] == rest[j - 1];
        assert r[j].key in Keys(rest);
        if r[j].key != key {
          var i :| 0 <= i < |tail| && tail[i].key == r[j].key;
          assert fields[i + 1].key == r[j].key;
        }
      }
      forall i, j | 0 < i < j < |r| ensures r[i].key != r[j].key {
        assert r[i] == rest[i - 1] && r[j] == rest[j - 1];
      }
    }
  }

  lemma KeysSnoc(kvs: seq<Field>)
    requires kvs != []
    ensures Keys(kvs) == Keys(kvs[..|kvs| - 1]) + {kvs[|kvs| - 1].key}
  {
    var init := kvs[..|kvs| - 1];
    forall k | k in Keys(kvs) ensures k in Keys(init) + {kvs[|kvs| - 1].key} {
      var i :| 0 <= i < |kvs| && kvs[i].key == k;
      if i < |init| {
        assert init[i].key == k;
      }
    }
    forall k | k in Keys(init) ensures k in Keys(kvs) {
      var i :| 0 <= i < |init| && init[i].key == k;
      assert kvs[i].key == k;
    }
  }

  /** Storing the pairs one after the other, as a loop of dict[k] = v does. */
  function PutAll(fields: seq<Field>, kvs: seq<Field>): (r: seq<Field>)
    ensures Keys(r) == Keys(fields) + Keys(kvs)
    ensures UniqueKeys(fields) ==> UniqueKeys(r)
    decreases |kvs|
  {
    if kvs == [] then fields
    else
      var last := kvs[|kvs| - 1];
      KeysSnoc(kvs);
      PutKeepsUnique(PutAll(fields, kvs[..|kvs| - 1]), last.key, last.value);
      Put(PutAll(fields, kvs[..|kvs| - 1]), last.key, last.value)
  }

  /** The value of the last pair with the given key, if any. */
  function LastPaired(kvs: seq<Field>, key: seq<byte>): (r: Option<Value>)
    ensures r.None? <==> key !in Keys(kvs)
    decreases |kvs|
  {
    if kvs == [] then None
    else
      KeysSnoc(kvs);
      if kvs[|kvs| - 1].key == key then Some(kvs[|kvs| - 1].value)
      else LastPaired(kvs[..|kvs| - 1], key)
  }

  /** After storing the pairs, a key holds the value of the last pair
      that names it; a key no pair names keeps its old value. */
  lemma {:induction false} LookupPutAll(fields: seq<Field>, kvs: seq<Field>, key: seq<byte>)
    ensures Lookup(PutAll(fields, kvs), key)
         == if key in Keys(kvs) then LastPaired(kvs, key) else Lookup(fields, key)
    decreases |kvs|
  {
    if kvs != [] {
      var init := kvs[..|kvs| - 1];
      var last := kvs[|kvs| - 1];
      LookupPutAll(fields, init, key);
      KeysSnoc(kvs);
      if last.key == key {
        PutLookup(PutAll(fields, init), key, last.value);
      } else {
        PutOther(PutAll(fields, init), last.key, last.value, key);
      }
    }
  }

  /** Storing one pair and then the rest is storing them all. */
  lemma {:induction false} PutAllCons(fields: seq<Field>, x: Field, kvs: seq<Field>)
    ensures PutAll(Put(fields, x.key, x.value), kvs) == PutAll(fields, [x] + kvs)
    decreases |kvs|
  {
    var xs := [x] + kvs;
    if kvs == [] {
      assert xs[..|xs| - 1] == [] && xs[|xs| - 1] == x;
    } else {
      PutAllCons(fields, x, kvs[..|kvs| - 1]);
      assert xs[..|xs| - 1] == [x] + kvs[..|kvs| - 1];
      assert xs[|xs| - 1] == kvs[|kvs| - 1];
    }
  }

  /** The values of the properties from index j on, each paired with its
      property's name, in entry order, before they are stored. */
  function ReadFieldList(table: seq<CustomEntry>, props: seq<Prop>, j: nat, data: seq<byte>, pos: nat)
    : (r: Result<(seq<Field>, nat)>)
    requires TableWF(table) && j <= |props| && pos <= |data|
    requires forall k :: 0 <= k < |props| ==> OptInRange(props[k].ty, |table|)
    ensures r.Ok? ==> pos <= r.value.1 <= |data| && |r.value.0| == |props| - j
    ensures r.Ok? ==> forall m :: 0 <= m < |r.value.0| ==> r.value.0[m].key == props[j + m].name
    decreases |props| - j
  {
    if j == |props| then Ok(([], pos))
    else
      match ReadTyped(table, props[j].ty, data, pos)
      case Err(e) => Err(e)
      case Ok((v, p)) =>
        match ReadFieldList(table, props, j + 1, data, p)
        case Err(e) => Err(e)
        case Ok((rest, q)) => Ok(([Field(props[j].name, v)] + rest, q))
  }

  /** A list read, stored into fields. */
  function Stored(fields: seq<Field>, r: Result<(seq<Field>, nat)>): Result<(seq<Field>, nat)> {
    match r
    case Err(e) => Err(e)
    case Ok((kvs, q)) => Ok((PutAll(fields, kvs), q))
  }

  /** Reading the properties into a dictionary is reading their values
      in entry order and then storing each under its property's name. */
  lemma {:induction false} FieldsAsStored(table: seq<CustomEntry>, props: seq<Prop>, j: nat, data: seq<byte>,
                                          pos: nat, acc: seq<Field>)
    requires TableWF(table) && j <= |props| && pos <= |data|
    requires forall k :: 0 <= k < |props| ==> OptInRange(props[k].ty, |table|)
    ensures ReadFields(table, props, j, data, pos, acc) == Stored(acc, ReadFieldList(table, props, j, data, pos))
    decreases |props| - j
  {
    if j < |props| {
      match ReadTyped(table, props[j].ty, data, pos)
      case Err(_) =>
      case Ok((v, p)) =>
        FieldsAsStored(table, props, j + 1, data, p, Put(acc, props[j].name, v));
        match ReadFieldList(table, props, j + 1, data, p)
        case Err(_) =>
        case Ok((rest, _)) =>
          PutAllCons(acc, Field(props[j].name, v), rest);
    }
  }

  /** A present custom value is the record of its properties' values,
      stored under their names in entry order into an empty dictionary. */
  lemma CustomValueStored(table: seq<CustomEntry>, index: nat, data: seq<byte>, pos: nat)
    requires TableWF(table) && index < |table| && table[index].bound && pos < |data| && data[pos] != 0
    ensures forall k :: 0 <= k < |table[index].props| ==> OptInRange(table[index].props[k].ty, |table|)
    ensures ReadCustomValue(table, index, data, pos)
         == match Stored([], ReadFieldList(table, table[index].props, 0, data, pos + 1))
            case Err(e) => Err(e)
            case Ok((fields, q)) => Ok((Record(fields), q))
  {
    FieldsAsStored(table, table[index].props, 0, data, pos + 1, []);
  }

  lemma PutKeepsUnique(fields: seq<Field>, key: seq<byte>, v: Value)
    ensures UniqueKeys(fields) ==> UniqueKeys(Put(fields, key, v))
  {
    if UniqueKeys(fields) {
      PutUnique(fields, key, v);
    }
  }

  /** A map value whose type code is 0 is a format error. */
  lemma MissingTypeCode(table: seq<CustomEntry>, data: seq<byte>, pos: nat)
    requires TableWF(table) && pos + 4 <= |data| && data[pos..pos + 4] == [0, 0, 0, 0]
    ensures ReadTyped(table, None, data, pos) == Err(MissingType)
  {
    var zeros: seq<byte> := [0, 0, 0, 0];
    assert zeros[1..] == [0, 0, 0] && zeros[1..][1..] == [0, 0] && zeros[1..][1..][1..] == [0];
    assert [0][1..] == [];
    assert FromLittleEndian(zeros) == 0;
  }
}
