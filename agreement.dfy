/** Where the encoder and the decoder meet: the schema block the encoder
    writes is read back by the raw phase with the same names and type-code
    words, as long as every property name is non-empty and free of 0
    bytes, and the bind pass turns each written code into the type the
    encoder meant. Primitive content of fixed width also reads back.
    Nullable content does not: the encoder writes no presence byte for a
    value that is there, while the decoder expects one. */
module Agreement {
  import opened Wrappers
  import opened BinaryUtils
  import opened Serializer
  import opened ReadableFormat

  // ---------------------------------------------------------------------
  // Bytes in place

  /** s occurs in data at pos, stated byte by byte so that only the first
      byte is in view until the rest is asked for. */
  predicate At(data: seq<byte>, pos: nat, s: seq<byte>)
    decreases |s|
  {
    pos + |s| <= |data| && (s == [] || (data[pos] == s[0] && At(data, pos + 1, s[1..])))
  }

  lemma {:induction false} AtSlice(data: seq<byte>, pos: nat, s: seq<byte>)
    ensures At(data, pos, s) <==> pos + |s| <= |data| && data[pos..pos + |s|] == s
    decreases |s|
  {
    if s != [] && pos + |s| <= |data| {
      AtSlice(data, pos + 1, s[1..]);
      var w := data[pos..pos + |s|];
      assert w[0] == data[pos] && w[1..] == data[pos + 1..pos + |s|];
      if data[pos] == s[0] && data[pos + 1..pos + |s|] == s[1..] {
        assert w == [s[0]] + s[1..] == s;
      }
    }
  }

  lemma AtMiddle(prefix: seq<byte>, s: seq<byte>, rest: seq<byte>)
    ensures At(prefix + s + rest, |prefix|, s)
  {
    var data := prefix + s + rest;
    assert data[|prefix|..|prefix| + |s|] == s;
    AtSlice(data, |prefix|, s);
  }

  lemma AtSplit(data: seq<byte>, pos: nat, a: seq<byte>, b: seq<byte>)
    requires At(data, pos, a + b)
    ensures At(data, pos, a) && At(data, pos + |a|, b)
  {
    AtSlice(data, pos, a + b);
    AtSlice(data, pos, a);
    AtSlice(data, pos + |a|, b);
    var w := data[pos..pos + |a| + |b|];
    assert w == a + b;
    assert data[pos..pos + |a|] == w[..|a|] == a;
    assert data[pos + |a|..pos + |a| + |b|] == w[|a|..] == b;
  }

  /** The same, naming the position where the second part starts. */
  lemma AtCut(data: seq<byte>, pos: nat, a: seq<byte>, b: seq<byte>, cut: nat)
    requires At(data, pos, a + b) && cut == pos + |a|
    ensures At(data, pos, a) && At(data, cut, b)
    ensures cut + |b| == pos + |a + b|
  {
    AtSplit(data, pos, a, b);
  }

  lemma UIntAt(data: seq<byte>, pos: nat, v: u32)
    requires At(data, pos, EncodeUInt(v))
    ensures ParseUInt(data, pos) == Ok((v, pos + 4))
  {
    AtSlice(data, pos, EncodeUInt(v));
    Pow256Widths();
    UnsignedAt(data, pos, 4, v);
  }

  lemma StringAt(data: seq<byte>, pos: nat, s: seq<byte>)
    requires At(data, pos, EncodeString(s)) && 0 !in s
    ensures ParseString(data, pos) == Ok((s, pos + |s| + 1))
  {
    AtSlice(data, pos, EncodeString(s));
    var w := data[pos..pos + |s| + 1];
    assert data[pos + |s|] == w[|s|] == EncodeString(s)[|s|];
    forall j | pos <= j < pos + |s| ensures data[j] != 0 {
      assert data[j] == w[j - pos] == s[j - pos];
    }
    StringUpToFirstZero(data, pos, pos + |s|);
    assert data[pos..pos + |s|] == w[..|s|] == s;
  }

  // ---------------------------------------------------------------------
  // Type codes

  /** A chain of type-code words as written is read back word for word. */
  lemma {:induction false} ChainAt(ws: seq<u32>, data: seq<byte>, pos: nat)
    requires ChainShape(ws) && At(data, pos, WordsBytes(ws))
    ensures ParseChain(data, pos) == Ok((ws, pos + 4 * |ws|))
    decreases |ws|
  {
    ChainHead(ws, data, pos);
    if ws[0] == ArrayWord {
      ChainAt(ws[1..], data, pos + 4);
      ChainStep(data, pos, ws[0], ws[1..], pos + 4 + 4 * |ws[1..]|, pos + 4 * |ws|);
    } else {
      ChainLast(data, pos, ws[0]);
    }
  }

  /** The first word of a chain is read back, the other words follow it, and
      a chain starting with anything but 5 is that one word. */
  lemma ChainHead(ws: seq<u32>, data: seq<byte>, pos: nat)
    requires ChainShape(ws) && At(data, pos, WordsBytes(ws))
    ensures ParseUInt(data, pos) == Ok((ws[0], pos + 4))
    ensures At(data, pos + 4, WordsBytes(ws[1..]))
    ensures ws[0] == ArrayWord ==> ChainShape(ws[1..]) && [ws[0]] + ws[1..] == ws
    ensures ws[0] == ArrayWord ==> pos + 4 + 4 * |ws[1..]| == pos + 4 * |ws|
    ensures ws[0] != ArrayWord ==> [ws[0]] == ws && pos + 4 == pos + 4 * |ws|
  {
    var tail := ws[1..];
    assert WordsBytes(ws) == EncodeUInt(ws[0]) + WordsBytes(tail);
    AtSplit(data, pos, EncodeUInt(ws[0]), WordsBytes(tail));
    UIntAt(data, pos, ws[0]);
    if ws[0] == ArrayWord {
      assert forall i :: 0 <= i < |tail| - 1 ==> tail[i] == ws[i + 1];
      assert [ws[0]] + tail == ws;
    } else {
      assert |ws| == 1 && [ws[0]] == ws;
    }
  }

  /** A 5 word, then the rest of the chain. */
  lemma ChainStep(data: seq<byte>, pos: nat, w: u32, tail: seq<u32>, q: nat, q': nat)
    requires ParseUInt(data, pos) == Ok((w, pos + 4)) && w == ArrayWord
    requires ParseChain(data, pos + 4) == Ok((tail, q)) && q == q'
    ensures ParseChain(data, pos) == Ok(([w] + tail, q'))
  {
  }

  /** A word other than 5 ends the chain. */
  lemma ChainLast(data: seq<byte>, pos: nat, w: u32)
    requires ParseUInt(data, pos) == Ok((w, pos + 4)) && w != ArrayWord
    ensures ParseChain(data, pos) == Ok(([w], pos + 4))
  {
  }

  /** The same, with the words between any prefix and any remainder. */
  lemma ChainRoundTrip(ws: seq<u32>, prefix: seq<byte>, rest: seq<byte>)
    requires ChainShape(ws)
    ensures ParseChain(prefix + WordsBytes(ws) + rest, |prefix|) == Ok((ws, |prefix| + 4 * |ws|))
  {
    AtMiddle(prefix, WordsBytes(ws), rest);
    ChainAt(ws, prefix + WordsBytes(ws) + rest, |prefix|);
  }

  /** The type a written code stands for, as the decoder names it. */
  function Resolved(types: seq<HostType>, t: HostType): RType
    requires InTable(types, t)
    decreases t
  {
    var id := PredefinedTypeId(t);
    if id == 1 then RBool
    else if id == 2 then RInt
    else if id == 3 then RDouble
    else if id == 4 then RString
    else if id == 5 then RArray(Some(Resolved(types, ElementType(t))))
    else if id == 6 then RObject
    else RCustom(IndexOf(types, t))
  }

  /** Folding the words written for t binds to the type t stands for: a
      primitive to its family, an array layer to an array of its item type,
      a map to a map and a custom type to its own table entry. */
  lemma {:induction false} CodeBindsToWrittenType(types: seq<HostType>, t: HostType)
    requires InTable(types, t) && |types| <= MaxEntries
    ensures BindChain(TypeIdWords(types, t), |types|) == Ok(Some(Resolved(types, t)))
    ensures InRange(Resolved(types, t), |types|)
    decreases t
  {
    var ws := TypeIdWords(types, t);
    if PredefinedTypeId(t) == 5 {
      CodeBindsToWrittenType(types, ElementType(t));
      assert ws[1..] == TypeIdWords(types, ElementType(t));
    } else {
      assert ws[1..] == [];
      if IsCustom(t) {
        assert Unwrap(t) == t;
      }
    }
  }

  // ---------------------------------------------------------------------
  // Schema entries

  /** The properties as the raw phase stores them: names and the words
      written for each type, not yet bound. */
  function RawProps(types: seq<HostType>, props: seq<Property>): (r: seq<Prop>)
    requires |types| <= MaxEntries
    ensures |r| == |props|
    ensures forall i :: 0 <= i < |props| ==>
      r[i] == Prop(props[i].name, TypeIdWords(types, props[i].ty), None)
    decreases |props|
  {
    if props == [] then []
    else [Prop(props[0].name, TypeIdWords(types, props[0].ty), None)] + RawProps(types, props[1..])
  }

  /** The property bytes, split at the first property instead of the last. */
  lemma {:induction false} PropertiesBytesCons(types: seq<HostType>, props: seq<Property>)
    requires |types| <= MaxEntries && props != []
    ensures PropertiesBytes(types, props) == PropertyBytes(types, props[0]) + PropertiesBytes(types, props[1..])
    decreases |props|
  {
    if |props| == 1 {
      assert props[..0] == [] && props[1..] == [];
      assert PropertiesBytes(types, props) == [] + PropertyBytes(types, props[0]);
    } else {
      var front := props[..|props| - 1];
      PropertiesBytesCons(types, front);
      TailLast(types, props);
      Regroup(PropertyBytes(types, props[0]), PropertiesBytes(types, front[1..]),
              PropertyBytes(types, props[|props| - 1]));
    }
  }

  /** Dropping the first property, then splitting off the last one. */
  lemma TailLast(types: seq<HostType>, props: seq<Property>)
    requires |types| <= MaxEntries && |props| >= 2
    ensures props[..|props| - 1][0] == props[0]
    ensures PropertiesBytes(types, props[1..])
         == PropertiesBytes(types, props[..|props| - 1][1..]) + PropertyBytes(types, props[|props| - 1])
  {
    BothEnds(props);
  }

  /** Dropping the first element, then the last, is dropping the last, then
      the first. */
  lemma BothEnds<T>(s: seq<T>)
    requires |s| >= 2
    ensures s[..|s| - 1][0] == s[0]
    ensures s[1..][..|s[1..]| - 1] == s[..|s| - 1][1..]
    ensures s[1..][|s[1..]| - 1] == s[|s| - 1]
  {
  }

  /** Names the writer can emit so that the raw phase reads them back. */
  predicate ReadableNames(props: seq<Property>) {
    forall i :: 0 <= i < |props| ==> props[i].name != [] && 0 !in props[i].name
  }

  /** Raw properties the raw phase can read back: a non-empty NUL-free name
      and a well-formed chain of words, not yet bound. */
  predicate RawReadable(qs: seq<Prop>) {
    forall i :: 0 <= i < |qs| ==> RawProp(qs[i])
  }

  /** The bytes of raw properties: each name, then its words. */
  function RawBytes(qs: seq<Prop>): (r: seq<byte>)
    decreases |qs|
  {
    if qs == [] then [] else EncodeString(qs[0].name) + WordsBytes(qs[0].typeIds) + RawBytes(qs[1..])
  }

  /** Where raw properties laid out from pos end, the terminating 0
      included. */
  function LaidEnd(qs: seq<Prop>, pos: nat): (end: nat)
    ensures end > pos
    decreases |qs|
  {
    if qs == [] then pos + 1 else LaidEnd(qs[1..], pos + |qs[0].name| + 1 + 4 * |qs[0].typeIds|)
  }

  /** Each property's name and chain lie in the buffer one after the other
      from pos on, and a 0 follows the last. */
  ghost predicate PropsLaid(qs: seq<Prop>, data: seq<byte>, pos: nat)
    decreases |qs|
  {
    || (qs == [] && At(data, pos, [0]))
    || (&& qs != []
        && At(data, pos, EncodeString(qs[0].name))
        && At(data, pos + |qs[0].name| + 1, WordsBytes(qs[0].typeIds))
        && PropsLaid(qs[1..], data, pos + |qs[0].name| + 1 + 4 * |qs[0].typeIds|))
  }

  /** The bytes of raw properties and a 0, lying at pos, are laid out
      property by property and end where the block ends. */
  lemma {:induction false} LaidFromBytes(qs: seq<Prop>, data: seq<byte>, pos: nat)
    requires At(data, pos, RawBytes(qs) + [0])
    ensures PropsLaid(qs, data, pos) && LaidEnd(qs, pos) == pos + |RawBytes(qs) + [0]|
    decreases |qs|
  {
    if qs == [] {
      assert RawBytes(qs) + [0] == [0];
    } else {
      var mid := pos + |qs[0].name| + 1;
      var next := mid + 4 * |qs[0].typeIds|;
      LaidHead(qs, data, pos, mid, next);
      LaidFromBytes(qs[1..], data, next);
    }
  }

  /** The first property's name and chain, and where the rest begin. */
  lemma LaidHead(qs: seq<Prop>, data: seq<byte>, pos: nat, mid: nat, next: nat)
    requires qs != [] && At(data, pos, RawBytes(qs) + [0])
    requires mid == pos + |qs[0].name| + 1 && next == mid + 4 * |qs[0].typeIds|
    ensures At(data, pos, EncodeString(qs[0].name)) && At(data, mid, WordsBytes(qs[0].typeIds))
    ensures At(data, next, RawBytes(qs[1..]) + [0])
    ensures next + |RawBytes(qs[1..]) + [0]| == pos + |RawBytes(qs) + [0]|
  {
    var name := EncodeString(qs[0].name);
    var words := WordsBytes(qs[0].typeIds);
    var rest := RawBytes(qs[1..]) + [0];
    RawHead(qs);
    AtCut(data, pos, name, words + rest, mid);
    AtCut(data, mid, words, rest, next);
  }

  /** The block regrouped as the first name, then its chain, then the rest. */
  lemma RawHead(qs: seq<Prop>)
    requires qs != []
    ensures RawBytes(qs) + [0]
         == EncodeString(qs[0].name) + (WordsBytes(qs[0].typeIds) + (RawBytes(qs[1..]) + [0]))
  {
    var name := EncodeString(qs[0].name);
    var words := WordsBytes(qs[0].typeIds);
    Regroup(name + words, RawBytes(qs[1..]), [0]);
    Regroup(name, words, RawBytes(qs[1..]) + [0]);
  }

  /** Raw properties laid out in the buffer are read back as the same
      properties in the same order. */
  lemma {:induction false} PropsAt(qs: seq<Prop>, data: seq<byte>, pos: nat)
    requires RawReadable(qs) && PropsLaid(qs, data, pos)
    ensures ParseProps(data, pos) == Ok((qs, LaidEnd(qs, pos)))
    decreases |qs|
  {
    if qs == [] {
      assert data[pos] == [0][0];
      EmptyString(data, pos);
    } else {
      var next := pos + |qs[0].name| + 1 + 4 * |qs[0].typeIds|;
      PropsAtHead(qs, data, pos, next);
      PropsAt(qs[1..], data, next);
      PropsJoin(qs, data, pos, next, LaidEnd(qs[1..], next), LaidEnd(qs, pos));
    }
  }

  /** The first raw property is read back; the others are laid out from
      next on. */
  lemma PropsAtHead(qs: seq<Prop>, data: seq<byte>, pos: nat, next: nat)
    requires qs != [] && RawReadable(qs) && PropsLaid(qs, data, pos)
    requires next == pos + |qs[0].name| + 1 + 4 * |qs[0].typeIds|
    ensures RawReadable(qs[1..]) && PropsLaid(qs[1..], data, next)
    ensures ParseProps(data, pos) == PrependTo([qs[0]], ParseProps(data, next))
    ensures LaidEnd(qs[1..], next) == LaidEnd(qs, pos)
  {
    LaidTail(qs, data, pos, next);
    RawTail(qs);
    FirstPropAt(qs, data, pos);
  }

  /** What the layout says of the first property and of the others. */
  lemma LaidTail(qs: seq<Prop>, data: seq<byte>, pos: nat, next: nat)
    requires qs != [] && PropsLaid(qs, data, pos)
    requires next == pos + |qs[0].name| + 1 + 4 * |qs[0].typeIds|
    ensures At(data, pos, EncodeString(qs[0].name))
    ensures At(data, pos + |qs[0].name| + 1, WordsBytes(qs[0].typeIds))
    ensures PropsLaid(qs[1..], data, next)
    ensures LaidEnd(qs[1..], next) == LaidEnd(qs, pos)
  {
  }

  lemma RawTail(qs: seq<Prop>)
    requires qs != [] && RawReadable(qs)
    ensures qs[0].name != [] && 0 !in qs[0].name && ChainShape(qs[0].typeIds) && qs[0].ty == None
    ensures RawReadable(qs[1..])
  {
    assert RawReadable(qs[1..]);
  }

  /** The first property, then the others, make the whole list. */
  lemma PropsJoin(qs: seq<Prop>, data: seq<byte>, pos: nat, next: nat, q: nat, q': nat)
    requires qs != [] && ParseProps(data, pos) == PrependTo([qs[0]], ParseProps(data, next))
    requires ParseProps(data, next) == Ok((qs[1..], q)) && q == q'
    ensures ParseProps(data, pos) == Ok((qs, q'))
  {
    assert [qs[0]] + qs[1..] == qs;
  }

  /** The first of the raw properties laid out at pos is read back, and
      reading goes on right after its chain. */
  lemma FirstPropAt(qs: seq<Prop>, data: seq<byte>, pos: nat)
    requires qs != [] && RawReadable(qs) && PropsLaid(qs, data, pos)
    ensures ParseProps(data, pos) == PrependTo([qs[0]], ParseProps(data, pos + |qs[0].name| + 1 + 4 * |qs[0].typeIds|))
  {
    var q := qs[0];
    var p := pos + |q.name| + 1;
    var r := p + 4 * |q.typeIds|;
    HeadName(qs, data, pos, p);
    HeadChain(qs, data, pos, p, r);
    PropStep(data, pos, q, p, r);
  }

  /** The first name is read back where the layout puts it. */
  lemma HeadName(qs: seq<Prop>, data: seq<byte>, pos: nat, p: nat)
    requires qs != [] && RawReadable(qs) && PropsLaid(qs, data, pos)
    requires p == pos + |qs[0].name| + 1
    ensures ParseString(data, pos) == Ok((qs[0].name, p)) && qs[0].name != []
  {
    LaidTail(qs, data, pos, pos + |qs[0].name| + 1 + 4 * |qs[0].typeIds|);
    RawTail(qs);
    StringAt(data, pos, qs[0].name);
  }

  /** The first chain is read back right after the first name. */
  lemma HeadChain(qs: seq<Prop>, data: seq<byte>, pos: nat, p: nat, r: nat)
    requires qs != [] && RawReadable(qs) && PropsLaid(qs, data, pos)
    requires p == pos + |qs[0].name| + 1 && r == p + 4 * |qs[0].typeIds|
    ensures ParseChain(data, p) == Ok((qs[0].typeIds, r)) && qs[0].ty == None
  {
    LaidTail(qs, data, pos, pos + |qs[0].name| + 1 + 4 * |qs[0].typeIds|);
    RawTail(qs);
    ChainAt(qs[0].typeIds, data, p);
  }

  /** One (name, chain) pair read, then the rest of the properties. */
  lemma PropStep(data: seq<byte>, pos: nat, q: Prop, p: nat, r: nat)
    requires ParseString(data, pos) == Ok((q.name, p)) && q.name != []
    requires ParseChain(data, p) == Ok((q.typeIds, r)) && q.ty == None
    ensures ParseProps(data, pos) == PrependTo([q], ParseProps(data, r))
  {
  }

  /** What the writer emits for a list of properties is the bytes of the
      raw properties the reader is to recover. */
  lemma {:induction false} RawBytesAsWritten(types: seq<HostType>, props: seq<Property>)
    requires |types| <= MaxEntries
    ensures RawBytes(RawProps(types, props)) == PropertiesBytes(types, props)
    decreases |props|
  {
    if props != [] {
      var qs := RawProps(types, props);
      PropertiesBytesCons(types, props);
      RawBytesAsWritten(types, props[1..]);
      assert qs[1..] == RawProps(types, props[1..]);
    }
  }

  lemma RawReadableAsWritten(types: seq<HostType>, props: seq<Property>)
    requires |types| <= MaxEntries && ReadableNames(props)
    ensures RawReadable(RawProps(types, props))
  {
  }

  /** One table entry as the schema writer emits it, when every property
      name is non-empty and free of 0 bytes, is read back by the raw phase
      as an unbound entry with the same names and word chains. */
  lemma EntryRoundTrip(reg: Registry, types: seq<HostType>, e: HostType, prefix: seq<byte>, rest: seq<byte>)
    requires e in reg && |types| <= MaxEntries && ReadableNames(reg[e])
    ensures ParseEntry(prefix + EntryBytes(reg, types, e) + rest, |prefix|)
         == Ok((CustomEntry(RawProps(types, reg[e]), false), |prefix| + |EntryBytes(reg, types, e)|))
  {
    AtMiddle(prefix, EntryBytes(reg, types, e), rest);
    EntryAt(reg, types, e, prefix + EntryBytes(reg, types, e) + rest, |prefix|);
  }

  /** The same, for an entry lying anywhere in the buffer. */
  lemma EntryAt(reg: Registry, types: seq<HostType>, e: HostType, data: seq<byte>, pos: nat)
    requires e in reg && |types| <= MaxEntries && ReadableNames(reg[e])
    requires At(data, pos, EntryBytes(reg, types, e))
    ensures ParseEntry(data, pos)
         == Ok((CustomEntry(RawProps(types, reg[e]), false), pos + |EntryBytes(reg, types, e)|))
  {
    EntryAsRaw(reg, types, e);
    EntryOfBytes(data, pos, RawProps(types, reg[e]), EntryBytes(reg, types, e));
  }

  lemma EntryOfBytes(data: seq<byte>, pos: nat, qs: seq<Prop>, b: seq<byte>)
    requires RawReadable(qs) && b == RawBytes(qs) + [0] && At(data, pos, b)
    ensures ParseEntry(data, pos) == Ok((CustomEntry(qs, false), pos + |b|))
  {
    RawEntryAt(qs, data, pos);
  }

  /** Raw properties followed by a 0 byte read back as one entry. */
  lemma RawEntryAt(qs: seq<Prop>, data: seq<byte>, pos: nat)
    requires RawReadable(qs) && At(data, pos, RawBytes(qs) + [0])
    ensures ParseEntry(data, pos) == Ok((CustomEntry(qs, false), pos + |RawBytes(qs) + [0]|))
  {
    LaidFromBytes(qs, data, pos);
    PropsAt(qs, data, pos);
    EntryOfProps(data, pos, qs, pos + |RawBytes(qs) + [0]|);
  }

  lemma EntryOfProps(data: seq<byte>, pos: nat, qs: seq<Prop>, m: nat)
    requires ParseProps(data, pos) == Ok((qs, m))
    ensures ParseEntry(data, pos) == Ok((CustomEntry(qs, false), m))
  {
  }

  /** An entry's bytes are those of its raw properties and a 0 byte. */
  lemma EntryAsRaw(reg: Registry, types: seq<HostType>, e: HostType)
    requires e in reg && |types| <= MaxEntries && ReadableNames(reg[e])
    ensures RawReadable(RawProps(types, reg[e]))
    ensures EntryBytes(reg, types, e) == RawBytes(RawProps(types, reg[e])) + [0]
    ensures |EntryBytes(reg, types, e)| == |RawBytes(RawProps(types, reg[e]))| + 1
  {
    RawBytesAsWritten(types, reg[e]);
    RawReadableAsWritten(types, reg[e]);
  }

  /** The raw table the decoder holds after reading every entry of a
      compiled table. */
  function RawTable(reg: Registry, types: seq<HostType>): (r: seq<CustomEntry>)
    requires InRegistry(reg, types) && |types| <= MaxEntries
    ensures |r| == |types|
    ensures forall i :: 0 <= i < |types| ==> r[i] == CustomEntry(RawProps(types, reg[types[i]]), false)
  {
    seq(|types|, i requires 0 <= i < |types| => CustomEntry(RawProps(types, reg[types[i]]), false))
  }

  /** Every property type of the list is in the table (when custom). */
  ghost predicate PropsInTable(types: seq<HostType>, props: seq<Property>) {
    forall j :: 0 <= j < |props| ==> InTable(types, props[j].ty)
  }

  /** The properties as they are once bound: each keeps its name and its
      words and gets the type its host type stands for. */
  function BoundProps(types: seq<HostType>, props: seq<Property>): (r: seq<Prop>)
    requires |types| <= MaxEntries && PropsInTable(types, props)
    ensures |r| == |props|
  {
    seq(|props|, j requires 0 <= j < |props| && InTable(types, props[j].ty) =>
      Prop(props[j].name, TypeIdWords(types, props[j].ty), Some(Resolved(types, props[j].ty))))
  }

  /** The bind pass over the properties of one written entry succeeds and
      gives each property the type its declared host type stands for. */
  lemma PropsBindAsWritten(types: seq<HostType>, props: seq<Property>)
    requires |types| <= MaxEntries && PropsInTable(types, props)
    ensures BindProps(RawProps(types, props), |types|).1.Ok?
    ensures BindProps(RawProps(types, props), |types|).0 == BoundProps(types, props)
  {
    var raw := RawProps(types, props);
    forall j | 0 <= j < |props|
      ensures BindChain(raw[j].typeIds, |types|) == Ok(Some(Resolved(types, props[j].ty)))
    {
      CodeBindsToWrittenType(types, props[j].ty);
    }
    BindPropsSpec(raw, |types|);
    assert BindProps(raw, |types|).0 == BoundProps(types, props);
  }

  /** The table once bound: every entry bound, with its bound properties. */
  function BoundTable(reg: Registry, types: seq<HostType>): (r: seq<CustomEntry>)
    requires InRegistry(reg, types) && TableClosed(reg, types) && |types| <= MaxEntries
    ensures |r| == |types|
  {
    seq(|types|, i requires 0 <= i < |types| && InRegistry(reg, types) && TableClosed(reg, types) =>
      ClosedEntry(reg, types, i);
      CustomEntry(BoundProps(types, reg[types[i]]), true))
  }

  lemma ClosedEntry(reg: Registry, types: seq<HostType>, i: nat)
    requires InRegistry(reg, types) && TableClosed(reg, types) && i < |types|
    ensures types[i] in reg && PropsInTable(types, reg[types[i]])
  {
  }

  /** Over a closed table, the bind pass on what the encoder wrote succeeds,
      marks every entry bound and gives every property the type its
      declared host type stands for, forward and self references
      included; the bound table keeps every type reference in range. */
  lemma TableBindsAsWritten(reg: Registry, types: seq<HostType>)
    requires InRegistry(reg, types) && TableClosed(reg, types) && |types| <= MaxEntries
    ensures BindTable(RawTable(reg, types)).1.Ok?
    ensures BindTable(RawTable(reg, types)).0 == BoundTable(reg, types)
    ensures TableWF(BindTable(RawTable(reg, types)).0)
  {
    var raw := RawTable(reg, types);
    var count := |types|;
    forall i | 0 <= i < count
      ensures BindProps(raw[i].props, count).1.Ok?
      ensures BindProps(raw[i].props, count).0 == BoundProps(types, reg[types[i]])
    {
      ClosedEntry(reg, types, i);
      PropsBindAsWritten(types, reg[types[i]]);
    }
    EntriesBind(raw, count);
    BindEntriesSpec(raw, count);
    assert BindTable(raw) == BindEntries(raw, count);
    assert BindTable(raw).0 == BoundTable(reg, types);
    assert TableWF(raw);
    BindTableWF(raw);
  }

  /** When each entry's properties bind, every chain of the table binds. */
  lemma EntriesBind(es: seq<CustomEntry>, count: nat)
    requires forall i :: 0 <= i < |es| ==> BindProps(es[i].props, count).1.Ok?
    ensures forall i, j :: 0 <= i < |es| && 0 <= j < |es[i].props| ==> BindChain(es[i].props[j].typeIds, count).Ok?
  {
    forall i | 0 <= i < |es| {
      BindPropsSpec(es[i].props, count);
    }
  }

  // ---------------------------------------------------------------------
  // Content

  /** The decoder's value for a primitive host value of fixed width. */
  function WireValue(v: HostValue): ReadableFormat.Value {
    match v
    case BoolV(b) => ReadableFormat.Bool(b)
    case IntV(i) => ReadableFormat.Int(i)
    case DoubleV(bits) => ReadableFormat.Dbl(bits)
    case _ => ReadableFormat.Null
  }

  /** A non-null Bool, Int or Double written by the content writer reads
      back as the same value, consuming exactly the bytes written. */
  lemma FixedWidthContent(reg: Registry, types: seq<HostType>, table: seq<CustomEntry>, v: HostValue, t: HostType,
                          prefix: seq<byte>, rest: seq<byte>)
    requires InRegistry(reg, types) && TableWF(table)
    requires 1 <= PredefinedTypeId(t) <= 3 && !v.Null? && WellTyped(reg, v, t)
    ensures EncodeContent(reg, types, v, t).Ok?
    ensures var bytes := EncodeContent(reg, types, v, t).value;
      ReadValue(table, Resolved([], t), prefix + bytes + rest, |prefix|) == Ok((WireValue(v), |prefix| + |bytes|))
  {
    match v
    case BoolV(b) =>
      BoolRoundTrip(b, prefix, rest);
    case IntV(i) =>
      IntRoundTrip(i, prefix, rest);
    case DoubleV(bits) =>
      ULongRoundTrip(bits, prefix, rest);
  }
}
