# TSON codec core in Dafny

TSON (the TSONify library) is a binary codec whose documents carry their
own schema. This project models its core and proves properties of the
model:

- **Primitive byte codec** (`binary_utils.dfy`, module `BinaryUtils`):
  little-endian 16/32/64-bit words, their two's-complement signed forms, a
  bool byte and NUL-terminated byte strings. Pure parse/encode functions
  state what each helper reads or writes. A `Reader` class (a byte buffer
  and a cursor) and a `Writer` class (a growing output buffer) carry the
  imperative helpers, and each method is proved against those functions.
- **Encoder** (`serializer.dfy`, module `Serializer`):
  - the type classifier `GetPredefinedTypeId`;
  - the schema compiler `GetTypes`/`AddTypes`, a depth-first, post-order
    walk with a visited set, as a `SchemaCompiler` class whose `visited`
    field is updated in place;
  - the type-code writer `WriteTypeId`;
  - the schema block writer `SerializeTypes`;
  - the content writer `SerializeContent`;
  - the document framing `Serialize`.

  Host types are an abstract datatype. Reflection is a finite registry
  that maps each custom type to its readable properties in declaration
  order.
- **The decoder** (`readable_type.dfy`, module `ReadableFormat`, as
  specification functions over the bytes; `readable_methods.dfy`, module
  `ReadableTypes`, as methods on the reader cursor):
  - `ResolveType`;
  - the raw phase `CustomReadableType.ReadType`;
  - the property constructor check;
  - the bind phase `ReadableProperty.Update`, `CustomReadableType.Update`
    and `UpdateCustomTypes`, as a `TypeTable` class whose entries are
    updated in place;
  - the Bool/Int/Double/String/Array/Object/custom readers, which build a
    dynamic value tree.

  Custom types live in an arena: a bound custom type is an index into the
  table. That is what lets forward and self references bind once every
  entry exists.
- **Agreement** (`agreement.dfy`): what the encoder writes and what the
  decoder reads back.
  - Type-code words round-trip.
  - A written schema entry is read back with the same names and chains,
    provided every property name is non-empty and has no 0 byte.
  - Over a closed table, the bind pass gives every property the type its
    declared host type stands for.
  - Fixed-width primitive content reads back.

  `schema_names.dfy` (module `SchemaNames`) shows what happens to an entry
  whose property name is empty.

Exceptions become `Result` errors (`wrappers.dfy`).

Behaviour of the code that the model keeps:

- **Presence byte.** The content writer writes a single 0 byte for null
  and no presence byte in front of a value that is there, while the
  readers of strings, arrays, maps and custom values expect one.
- **Maps.** A non-null map value writes nothing.
- **Generic collections.** The list-like collection path writes nothing
  for an empty collection and fails for a non-empty one.
- **Missing custom type.** A custom type missing from the table is written
  with code 6, because `IndexOf` returns -1 and 7 is added. The model
  proves that this cannot happen for the table that `GetTypes` compiles.

## Model

| member | source | states |
|---|---|---|
| BinaryUtils.LittleEndianRoundTrip | TSONify/TSONify/Helpers/BinaryUtils.cs:113-119 | writing any value below 256^n as n little-endian bytes and reading them back gives the value |
| BinaryUtils.LittleEndianInverse | TSONify/TSONify/Helpers/BinaryUtils.cs:46-56 | reading any n bytes as a little-endian word and writing it back gives the same bytes |
| BinaryUtils.LittleEndianByteAt | TSONify/TSONify/Helpers/BinaryUtils.cs:128-135 | byte i of the encoding is (v >> 8i) & 0xFF |
| BinaryUtils.ParseUnsigned | TSONify/TSONify/Helpers/BinaryUtils.cs:46-56 | an n-byte little-endian read yields a value below 256^n |
| BinaryUtils.ParseUInt | TSONify/TSONify/Helpers/BinaryUtils.cs:33-39 | a 32-bit read succeeds exactly when 4 bytes are left, advances by 4, and otherwise fails at end of stream |
| BinaryUtils.ParseInt | TSONify/TSONify/Helpers/BinaryUtils.cs:28-31 | the signed read succeeds exactly when 4 bytes are left and advances by 4 |
| BinaryUtils.ParseULong | TSONify/TSONify/Helpers/BinaryUtils.cs:46-56 | a 64-bit read succeeds exactly when 8 bytes are left and advances by 8 |
| BinaryUtils.ParseString | TSONify/TSONify/Helpers/BinaryUtils.cs:76-85 | a string read yields NUL-free bytes and ends just past one more byte (the terminator); its only failure is end of stream |
| BinaryUtils.ParseStringSpec | TSONify/TSONify/Helpers/BinaryUtils.cs:76-85 | a string read succeeds exactly when a 0 byte is left; it returns the bytes up to that 0 |
| BinaryUtils.StringUpToFirstZero | TSONify/TSONify/Helpers/BinaryUtils.cs:79-82 | the read stops at the first 0 byte, returns the bytes before it and consumes the 0 |
| BinaryUtils.EmptyString | TSONify/TSONify/Helpers/BinaryUtils.cs:79 | input that begins with 0 reads as the empty string after one byte |
| BinaryUtils.UnsignedAt | TSONify/TSONify/Helpers/BinaryUtils.cs:33-39 | the little-endian bytes of v at pos read back as v, ending n bytes later |
| BinaryUtils.UShortRoundTrip | TSONify/TSONify/Helpers/BinaryUtils.cs:102-106 | a 16-bit word is written as [low byte, high byte] and read back, in any surrounding buffer |
| BinaryUtils.UIntRoundTrip | TSONify/TSONify/Helpers/BinaryUtils.cs:113-119 | a 32-bit word is written as 4 bytes, least significant first, and read back |
| BinaryUtils.ULongRoundTrip | TSONify/TSONify/Helpers/BinaryUtils.cs:126-136 | a 64-bit word is written as 8 bytes, least significant first, and read back |
| BinaryUtils.ShortRoundTrip | TSONify/TSONify/Helpers/BinaryUtils.cs:97-100 | every 16-bit signed value survives the two's-complement cast, the write and the read |
| BinaryUtils.IntRoundTrip | TSONify/TSONify/Helpers/BinaryUtils.cs:108-111 | every 32-bit signed value survives the cast, the write and the read |
| BinaryUtils.LongRoundTrip | TSONify/TSONify/Helpers/BinaryUtils.cs:121-124 | every 64-bit signed value survives the cast, the write and the read |
| BinaryUtils.UnsignedBytesRoundTrip | TSONify/TSONify/Helpers/BinaryUtils.cs:33-39 | any n bytes read as a word and written back are the same bytes |
| BinaryUtils.BoolRoundTrip | TSONify/TSONify/Helpers/BinaryUtils.cs:87-90 | a bool is written as one byte 1 or 0 and read back after one byte |
| BinaryUtils.StringRoundTrip | TSONify/TSONify/Helpers/BinaryUtils.cs:156-161 | a written string is always readable, and reads back as itself exactly when it holds no 0 byte |
| BinaryUtils.Reader.ReadByte | TSONify/TSONify/Helpers/BinaryUtils.cs:13-16 | reads one byte, or fails at end of stream |
| BinaryUtils.Reader.ReadBool | TSONify/TSONify/Helpers/BinaryUtils.cs:8-11 | one byte, true for any non-zero byte |
| BinaryUtils.Reader.ReadUnsigned | TSONify/TSONify/Helpers/BinaryUtils.cs:46-56 | the byte-by-byte shift-and-or loop yields the little-endian word and advances the cursor by n |
| BinaryUtils.Reader.ReadUShort | TSONify/TSONify/Helpers/BinaryUtils.cs:23-26 | agrees with the 16-bit parse |
| BinaryUtils.Reader.ReadShort | TSONify/TSONify/Helpers/BinaryUtils.cs:18-21 | agrees with the signed 16-bit parse |
| BinaryUtils.Reader.ReadUInt | TSONify/TSONify/Helpers/BinaryUtils.cs:33-39 | agrees with the 32-bit parse |
| BinaryUtils.Reader.ReadInt | TSONify/TSONify/Helpers/BinaryUtils.cs:28-31 | agrees with the signed 32-bit parse |
| BinaryUtils.Reader.ReadULong | TSONify/TSONify/Helpers/BinaryUtils.cs:46-56 | agrees with the 64-bit parse |
| BinaryUtils.Reader.ReadLong | TSONify/TSONify/Helpers/BinaryUtils.cs:41-44 | agrees with the signed 64-bit parse |
| BinaryUtils.Reader.ReadString | TSONify/TSONify/Helpers/BinaryUtils.cs:76-85 | the collecting loop agrees with the string parse: the bytes up to the first 0, the cursor just past it (no length limit: see Left out) |
| BinaryUtils.Writer.WriteByte | TSONify/TSONify/Helpers/BinaryUtils.cs:92-95 | appends exactly that byte |
| BinaryUtils.Writer.WriteBytes | TSONify/TSONify/TSONSerializer.cs:23-24 | appends exactly those bytes |
| BinaryUtils.Writer.WriteBool | TSONify/TSONify/Helpers/BinaryUtils.cs:87-90 | appends the bool byte |
| BinaryUtils.Writer.WriteUnsigned | TSONify/TSONify/Helpers/BinaryUtils.cs:126-136 | the mask-and-shift loop appends the n little-endian bytes of v |
| BinaryUtils.Writer.WriteUShort | TSONify/TSONify/Helpers/BinaryUtils.cs:102-106 | appends the 2-byte encoding |
| BinaryUtils.Writer.WriteShort | TSONify/TSONify/Helpers/BinaryUtils.cs:97-100 | appends the 2-byte encoding of the unsigned reinterpretation |
| BinaryUtils.Writer.WriteUInt | TSONify/TSONify/Helpers/BinaryUtils.cs:113-119 | appends the 4-byte encoding |
| BinaryUtils.Writer.WriteInt | TSONify/TSONify/Helpers/BinaryUtils.cs:108-111 | appends the 4-byte encoding of the unsigned reinterpretation |
| BinaryUtils.Writer.WriteULong | TSONify/TSONify/Helpers/BinaryUtils.cs:126-136 | appends the 8-byte encoding |
| BinaryUtils.Writer.WriteLong | TSONify/TSONify/Helpers/BinaryUtils.cs:121-124 | appends the 8-byte encoding of the unsigned reinterpretation |
| BinaryUtils.Writer.WriteString | TSONify/TSONify/Helpers/BinaryUtils.cs:156-161 | appends the content bytes and then one 0 byte |
| Serializer.PredefinedTypeId | TSONify/TSONify/TSONSerializer.cs:181-229 | never 0; 1-4 exactly for the primitive families (1 for bool only, 2 exactly for the eight integer kinds, 3 exactly for single and double, 4 for char and string); 5 exactly for rank-1 arrays and list-compatible one-argument generics; 6 exactly for string-keyed dictionaries; -1 otherwise |
| Serializer.ElementType | TSONify/TSONify/TSONSerializer.cs:155 | the item type of an array-like type is structurally smaller |
| Serializer.Discover | TSONify/TSONify/TSONSerializer.cs:150-179 | the visited set only grows |
| Serializer.DiscoverAll | TSONify/TSONify/TSONSerializer.cs:170-176 | the visited set only grows over a property list |
| Serializer.DiscoverSound | TSONify/TSONify/TSONSerializer.cs:150-179 | the entries produced are exactly the newly visited types, each a custom registry type, each once; every custom type their properties lead to ends up visited; a new custom root is emitted last; arrays defer to their item type and primitives and maps add nothing |
| Serializer.DiscoverAllSound | TSONify/TSONify/TSONSerializer.cs:170-176 | the same facts over a property list, and every custom type a listed property leads to ends up visited |
| Serializer.CompileTable | TSONify/TSONify/TSONSerializer.cs:144-148 | the table has no duplicates, holds only custom registry types, is closed under property types, ends with a custom root, is empty for a non-custom root and is no larger than the registry; its order is stated by Serializer.TableOrder |
| Serializer.DiscoverReaches | TSONify/TSONify/TSONSerializer.cs:150-179 | every entry the walk emits from a type is reached from that type's custom part through property types |
| Serializer.DiscoverAllReaches | TSONify/TSONify/TSONSerializer.cs:170-176 | every entry emitted over some of a type's properties is reached from that type |
| Serializer.DiscoverPostOrder | TSONify/TSONify/TSONSerializer.cs:150-179 | each emitted type comes after every custom type its properties lead to, unless that type was visited before the walk or leads back to it |
| Serializer.DiscoverAllPostOrder | TSONify/TSONify/TSONSerializer.cs:170-176 | the same post-order over a property list |
| Serializer.TableOrder | TSONify/TSONify/TSONSerializer.cs:144-179 | the compiled table holds only types reached from the root, and each entry comes after the custom types its properties lead to, except those that lead back to it (a cycle) |
| Serializer.TableExample | TSONify/TSONify/TSONSerializer.cs:144-179 | for a type 0 with properties of types 1 and 2, and an unrelated type 3, the table is exactly [1, 2, 0] |
| Serializer.IndexOf | TSONify/TSONify/TSONSerializer.cs:140 | the first index of the type, or -1 exactly when it is absent |
| Serializer.TypeIdWords | TSONify/TSONify/TSONSerializer.cs:129-142 | one 5 per array layer, then exactly one non-5 word: the predefined code, or IndexOf + 7 for a custom type |
| Serializer.CustomCodeInRange | TSONify/TSONify/TSONSerializer.cs:140 | when the table holds the custom type, its final word lies in [7, 7 + count) and names that entry |
| Serializer.TableCodesResolve | TSONify/TSONify/TSONSerializer.cs:140 | every custom code written for a property of a compiled table lies in [7, 7 + count) and names the property's custom type, so the -1 case never arises |
| Serializer.WordsBytes | TSONify/TSONify/TSONSerializer.cs:134 | each code word takes 4 bytes |
| Serializer.EncodeContent | TSONify/TSONify/TSONSerializer.cs:59-65 | a null value writes exactly one 0 byte |
| Serializer.ContentOk | TSONify/TSONify/TSONSerializer.cs:59-127 | over a closed table holding the declared type, content writing succeeds exactly on well-typed values: never a missing custom type; a non-empty list-like collection always fails |
| Serializer.ItemsOk | TSONify/TSONify/TSONSerializer.cs:92-95 | the items of a native array are written exactly when each is well typed under the item type |
| Serializer.FieldsOk | TSONify/TSONify/TSONSerializer.cs:122-125 | the properties of a custom value are written exactly when each is well typed under its property type |
| Serializer.HeaderLayout | TSONify/TSONify/TSONSerializer.cs:13-21 | the header is 11 bytes: FA 54, version 1, and the two block lengths as 32-bit little-endian words, each of which reads back |
| Serializer.FrameLayout | TSONify/TSONify/TSONSerializer.cs:13-26 | a document is the header, the schema block and then the content block; its length is 11 plus both block lengths |
| Serializer.SchemaCompiler.constructor | TSONify/TSONify/TSONSerializer.cs:146 | the visited set starts empty |
| Serializer.SchemaCompiler.AddTypes | TSONify/TSONify/TSONSerializer.cs:150-179 | the walk that updates the visited set in place yields exactly the entries and visited set of the discovery function |
| Serializer.GetTypes | TSONify/TSONify/TSONSerializer.cs:144-148 | yields the compiled table |
| Serializer.WriteTypeId | TSONify/TSONify/TSONSerializer.cs:129-142 | appends the little-endian bytes of the type's code words |
| Serializer.WriteProperty | TSONify/TSONify/TSONSerializer.cs:40-41 | appends the property name as a string, then its type code |
| Serializer.WriteEntry | TSONify/TSONify/TSONSerializer.cs:38-44 | appends every property of the entry in order, then one 0 byte |
| Serializer.WriteEntries | TSONify/TSONify/TSONSerializer.cs:36-45 | appends every entry in table order |
| Serializer.SerializeTypes | TSONify/TSONify/TSONSerializer.cs:29-48 | the schema block is the 32-bit entry count and then every entry |
| Serializer.SerializeContentTo | TSONify/TSONify/TSONSerializer.cs:59-127 | on success appends exactly the content encoding, otherwise fails with its error; a native array is its 32-bit length and each item under the item type; a custom value is its properties in table order; a custom type missing from the table is an error |
| Serializer.WriteItems | TSONify/TSONify/TSONSerializer.cs:92-95 | on success appends each item's content encoding under the item type, in order; the first item that fails makes the whole array fail with that item's error |
| Serializer.WriteFields | TSONify/TSONify/TSONSerializer.cs:122-125 | on success appends each property value's content encoding under the property's type, in the entry's order; the first value that fails makes the whole object fail with its error |
| Serializer.SerializeContent | TSONify/TSONify/TSONSerializer.cs:50-57 | the content buffer is the content encoding |
| Serializer.Serialize | TSONify/TSONify/TSONSerializer.cs:8-27 | the output is the document: magic, version, both lengths, schema block, content block |
| Serializer.WriteBlocks | TSONify/TSONify/TSONSerializer.cs:20-24 | after magic and version the writer holds the whole frame: both 32-bit block lengths, then the schema block and the content block |
| ReadableFormat.CustomRef | TSONify/TSONify/Models/ReadableType.cs:84 | a code w >= 7 resolves exactly when w < 2^31 and w - 7 < count, to entry w - 7; otherwise the index is out of range |
| ReadableFormat.WordType | TSONify/TSONify/Models/ReadableType.cs:247-257 | words below 7 always resolve, and only 0 gives absent; the result stays inside the table |
| ReadableFormat.ParseType | TSONify/TSONify/Models/ReadableType.cs:57-85 | reading a type code consumes at least one word and yields a type inside the table |
| ReadableFormat.ParseChain | TSONify/TSONify/Models/ReadableType.cs:201-207 | the stored chain is some 5s and one non-5 word, 4 bytes each; its only failure is end of stream |
| ReadableFormat.MakeProp | TSONify/TSONify/Models/ReadableType.cs:218-225 | the constructor accepts exactly a non-empty chain that does not end in 5 |
| ReadableFormat.ParseProps | TSONify/TSONify/Models/ReadableType.cs:194-210 | reading the properties consumes at least the terminating empty name |
| ReadableFormat.ParseEntry | TSONify/TSONify/Models/ReadableType.cs:190-213 | a raw entry is not yet bound |
| ReadableFormat.ParsePropsShape | TSONify/TSONify/Models/ReadableType.cs:218-221 | every property the raw phase reads has a non-empty NUL-free name, a well-formed chain and no type yet; the constructor check never fires |
| ReadableFormat.BindChain | TSONify/TSONify/Models/ReadableType.cs:241-261 | the right-to-left fold yields a type inside the table |
| ReadableFormat.BindProps | TSONify/TSONify/Models/ReadableType.cs:179-182 | binding keeps the number of properties |
| ReadableFormat.BindEntries | TSONify/TSONify/Models/ReadableType.cs:49-52 | binding keeps the number of entries |
| ReadableFormat.Put | TSONify/TSONify/Models/ReadableType.cs:36 | dict[key] = v adds the key, and adds a slot only for a new key |
| ReadableFormat.ParseHeader | TSONify/TSONify/Models/ReadableType.cs:122-124 | the header byte is read when one byte is left; 0 means null |
| ReadableFormat.ReadValue | TSONify/TSONify/Models/ReadableType.cs:7-11 | every read consumes at least one byte; Bool, Int and Double take exactly 1, 4 and 8 bytes, with no header |
| ReadableFormat.ReadStringValue | TSONify/TSONify/Models/ReadableType.cs:13-20 | a 0 header gives null after one byte; otherwise a NUL-free string |
| ReadableFormat.ReadArrayValue | TSONify/TSONify/Models/ReadableType.cs:120-136 | a 0 header gives null after one byte; otherwise exactly as many elements as the 32-bit count says (counts of 2^31 or more: see Left out) |
| ReadableFormat.ReadMapValue | TSONify/TSONify/Models/ReadableType.cs:24-40 | a 0 header gives null after one byte; otherwise a record whose keys are unique, built by storing the pairs of ReadableFormat.ReadPairList in stream order (ReadableFormat.PutAll); counts of 2^31 or more: see Left out |
| ReadableFormat.ReadCustomValue | TSONify/TSONify/Models/ReadableType.cs:157-173 | an entry not yet bound cannot be read; a 0 header gives null; otherwise a record with one unique key per property name |
| ReadableFormat.CustomValueStored | TSONify/TSONify/Models/ReadableType.cs:157-173 | a present custom value is the record obtained by storing each property's value under its name, in entry order, into an empty dictionary |
| ReadableFormat.ReadTyped | TSONify/TSONify/Models/ReadableType.cs:233-239 | a value of known or freshly read type consumes at least one byte |
| ReadableFormat.ReadItems | TSONify/TSONify/Models/ReadableType.cs:128-134 | exactly n more elements are appended after the ones read (n of 2^31 or more: see Left out) |
| ReadableFormat.ReadPairList | TSONify/TSONify/Models/ReadableType.cs:32-37 | exactly n (key, value) pairs are read, in stream order, each key free of 0 bytes (n of 2^31 or more: see Left out) |
| ReadableFormat.ReadFields | TSONify/TSONify/Models/ReadableType.cs:167-171 | the keys are those stored before plus every remaining property name, and stay unique |
| ReadableFormat.ReadFieldList | TSONify/TSONify/Models/ReadableType.cs:167-171 | one value per remaining property, in entry order, each paired with that property's name |
| ReadableFormat.FieldsAsStored | TSONify/TSONify/Models/ReadableType.cs:167-171 | storing the properties one by one is reading their values in entry order and then storing them in that order |
| ReadableFormat.PutAll | TSONify/TSONify/Models/ReadableType.cs:32-37 | storing pairs one after the other adds exactly their keys and keeps keys unique |
| ReadableFormat.LastPaired | TSONify/TSONify/Models/ReadableType.cs:36 | a key has a last pair exactly when some pair names it |
| ReadableFormat.LookupPutAll | TSONify/TSONify/Models/ReadableType.cs:32-37 | after storing the pairs, a key holds the value of the last pair that names it (a later duplicate wins); a key no pair names keeps its old value |
| ReadableFormat.PutAllCons | TSONify/TSONify/Models/ReadableType.cs:32-37 | storing one pair and then the rest is storing them all in order |
| ReadableFormat.ResolveIsBoundChain | TSONify/TSONify/Models/ReadableType.cs:241-261 | folding the stored words right to left gives the same type and end position as reading the code with ResolveType |
| ReadableFormat.BindChainError | TSONify/TSONify/Models/ReadableType.cs:256 | a word the fold cannot bind makes the whole chain fail with its error |
| ReadableFormat.BindChainShape | TSONify/TSONify/Models/ReadableType.cs:244-258 | a chain of k 5s and a last word binds exactly when the last word is a valid code, and then to k arrays around that word's type |
| ReadableFormat.BindPropsSpec | TSONify/TSONify/Models/ReadableType.cs:179-182 | the properties bind exactly when every chain binds; then each keeps its name and words and takes its chain's type |
| ReadableFormat.BindEntriesSpec | TSONify/TSONify/Models/ReadableType.cs:47-53 | the table binds exactly when every chain binds against the whole table, wherever its target entry sits; then every entry is marked bound |
| ReadableFormat.BindTableSucceeds | TSONify/TSONify/Models/ReadableType.cs:47-53 | with well-formed chains whose last words are valid codes, binding succeeds and marks every entry bound, forward and self references included |
| ReadableFormat.BindTableWF | TSONify/TSONify/Models/ReadableType.cs:176-183 | binding keeps every stored type reference inside the table |
| ReadableFormat.PutLookup | TSONify/TSONify/Models/ReadableType.cs:36 | after dict[key] = v the key holds v, so a later duplicate overwrites an earlier one |
| ReadableFormat.PutOther | TSONify/TSONify/Models/ReadableType.cs:170 | dict[key] = v leaves every other key as it was |
| ReadableFormat.PutUnique | TSONify/TSONify/Models/ReadableType.cs:36 | dict[key] = v never creates a second slot for a key |
| ReadableFormat.MissingTypeCode | TSONify/TSONify/Models/ReadableType.cs:35 | a map value whose type code is 0 is a missing-type format error |
| ReadableTypes.ResolveType | TSONify/TSONify/Models/ReadableType.cs:57-85 | agrees with the type-code parse: the words up to the first non-5, their type, or the error |
| ReadableTypes.ReadType | TSONify/TSONify/Models/ReadableType.cs:190-213 | the nested collecting loops agree with the raw entry parse |
| ReadableTypes.UpdateProperty | TSONify/TSONify/Models/ReadableType.cs:241-261 | the right-to-left loop gives the bound property; name and words are kept and the type stays inside the table |
| ReadableTypes.TypeTable.UpdateEntry | TSONify/TSONify/Models/ReadableType.cs:176-183 | entry i is marked bound and its properties are updated in place, in order, until the first failure; no other entry changes |
| ReadableTypes.TypeTable.UpdateCustomTypes | TSONify/TSONify/Models/ReadableType.cs:47-53 | the in-place pass over every entry gives exactly the bound table and result of the bind function |
| ReadableTypes.Read | TSONify/TSONify/Models/ReadableType.cs:98-101 | reading a value of a bound type agrees with the value reader, cursor included |
| ReadableTypes.ReadStr | TSONify/TSONify/Models/ReadableType.cs:13-20 | agrees with the string value reader |
| ReadableTypes.ReadTypedValue | TSONify/TSONify/Models/ReadableType.cs:233-239 | a known type is read directly; otherwise a type code is read first, and 0 there is a missing-type error |
| ReadableTypes.ReadArray | TSONify/TSONify/Models/ReadableType.cs:120-136 | gives the array value reader's result and cursor: null after a 0 header, otherwise the 32-bit count and then that many elements, or the first error |
| ReadableTypes.ReadElements | TSONify/TSONify/Models/ReadableType.cs:128-134 | reads exactly the elements `ReadableFormat.ReadItems` reads for the count, leaving the cursor after the last, or fails with the first element's error |
| ReadableTypes.ReadMap | TSONify/TSONify/Models/ReadableType.cs:24-40 | agrees with the map value reader: null after a 0 header, otherwise the 32-bit count and then the stored pairs, or the first error |
| ReadableTypes.ReadEntries | TSONify/TSONify/Models/ReadableType.cs:30-37 | the loop that stores each (key, value) in turn into a dictionary that starts empty gives exactly the pairs of ReadableFormat.ReadPairList stored in stream order, or fails with the first key's or value's error |
| ReadableTypes.ReadCustom | TSONify/TSONify/Models/ReadableType.cs:157-173 | the property loop agrees with the custom value reader |
| Agreement.ChainRoundTrip | TSONify/TSONify/Models/ReadableType.cs:201-207 | a written chain of code words is read back word for word, in any surrounding buffer |
| Agreement.CodeBindsToWrittenType | TSONify/TSONify/Models/ReadableType.cs:241-261 | folding the words written for a host type binds to the type it stands for: its primitive family, an array of its item type, a map, or its own table entry |
| Agreement.RawBytesAsWritten | TSONify/TSONify/TSONSerializer.cs:38-42 | the property bytes written are the bytes of the raw properties the reader is to recover |
| Agreement.RawEntryAt | TSONify/TSONify/Models/ReadableType.cs:190-213 | readable raw properties laid out with a closing 0 byte are read back as one unbound entry, ending just past the 0 |
| Agreement.PropsAt | TSONify/TSONify/Models/ReadableType.cs:194-210 | the properties laid out at pos are read back in order, up to the terminating empty name |
| Agreement.EntryAt | TSONify/TSONify/Models/ReadableType.cs:190-213 | for non-empty NUL-free property names (Agreement.ReadableNames), an entry the schema writer emitted is read back with the same names and word chains, wherever it lies |
| Agreement.EntryRoundTrip | TSONify/TSONify/Models/ReadableType.cs:190-213 | the same, for non-empty NUL-free property names (Agreement.ReadableNames), for an entry between any prefix and remainder |
| SchemaNames.EmptyNameEndsEntry | TSONify/TSONify/Models/ReadableType.cs:196-198 | a bool property with an empty name is written as 0, the word 1 and the closing 0, and the raw phase reads that as an entry with no properties ending after the first byte |
| Agreement.PropsBindAsWritten | TSONify/TSONify/Models/ReadableType.cs:179-182 | the written properties of an entry bind, each to the type its declared host type stands for |
| Agreement.TableBindsAsWritten | TSONify/TSONify/Models/ReadableType.cs:47-53 | over a closed table, binding what the encoder wrote succeeds, marks every entry bound, gives every property its written type (forward and self references included) and keeps references in range |
| Agreement.FixedWidthContent | TSONify/TSONify/TSONSerializer.cs:72-80 | a non-null Bool, Int or Double written by the content writer reads back as the same value, consuming exactly the bytes written |

## Left out

- Reflection (TypeInfo.cs, WritableType.cs) is not part of this model. It is replaced by a finite registry of property lists and by host values whose property values are given in declaration order.
- The `Convert.ToBoolean/ToInt32/ToDouble` coercions and `obj.ToString()` are not modelled. A primitive host value is already in its wire form, and a value of the wrong shape is an `UnsupportedValue` error.
- Floating point is not modelled: doubles are opaque 64-bit patterns, and float is neither read nor written. The big-endian `ReverseEndianness` branches are left out too.
- UTF-8 is not modelled: strings are byte sequences, and `Encoding.UTF8` is left out.
- The generic-collection content path is modelled only as the outcome of the code: an empty collection writes nothing and a non-empty one fails. Its count and recursion are not modelled.
- A document reader is not part of this model. The source has no `Deserialize`, so magic, version and length checks and the table-count loop are left out, and so is the reading of the root type code.
- There is no whole-document content round trip. The writer puts no presence byte in front of a non-null string, array, map or custom value, and writes nothing for a non-null map. The readers expect a presence byte, so only fixed-width primitive content round-trips (Agreement.FixedWidthContent).
- Agreement.EntryAt and Agreement.EntryRoundTrip hold only for non-empty property names without a 0 byte. The code writes any name it is given, and a `JsonPropertyName` may be empty. The reader takes an empty name for the end of the entry and cuts a name at its first 0 byte, so the rest of the schema block is then read out of step (SchemaNames.EmptyNameEndsEntry shows the empty-name case).
- The serializer calls `BinaryUtils.Write(...)` overloads that `BinaryUtils.cs` does not define. The model maps each call to the typed writer for its argument type: `WriteByte` for a byte, `WriteUShort` for the magic, `WriteUInt` for lengths, counts and code words, `WriteString` for names and strings, `WriteBool` and `WriteInt` for bool and int content, and `WriteULong` for the 64-bit pattern of a double.
- `MemoryStream`/`BinaryWriter` buffering and disposal are left out, as are all `ToString` diagnostics.
- Exceptions are `Result` errors. Array and dictionary outputs are sequences, so there is no aliasing between them.
- ReadableFormat.ReadArrayValue, ReadableFormat.ReadItems, ReadableTypes.ReadArray and ReadableTypes.ReadElements read a 32-bit count of 2^31 or more as an ordinary unbounded count. The source allocates `new object?[length]` first (ReadableType.cs:127), and that allocation fails above the runtime's largest array, so such a count is an error there and not a long array.
- ReadableFormat.ReadMapValue, ReadableFormat.ReadPairList, ReadableTypes.ReadMap and ReadableTypes.ReadEntries read exactly n pairs for any count n. In the source the loop counter is an `int` compared with a `uint` count (ReadableType.cs:32). For a count of 2^31 or more, the counter wraps to a negative value before reaching the count, so the loop keeps reading pairs until the stream or the dictionary fails.
- BinaryUtils.ParseString and BinaryUtils.Reader.ReadString return a string of any length. The source collects the bytes in a `List<byte>` (BinaryUtils.cs:78), which fails once it would exceed the runtime's largest array.
- The 32-bit signed overflow of `IndexOf + 7` is outside the model: table sizes are bounded by `MaxEntries`, which keeps that sum below 2^31.
- Serializer.Discover: its own contract states only that the visited set grows; the table facts are stated by Serializer.DiscoverSound, Serializer.DiscoverReaches and Serializer.DiscoverPostOrder.
- Serializer.TableOrder: the order of two entries that are discovered through different properties of one type (or that reach each other through a cycle) is fixed only by the definition of the walk; Serializer.TableExample shows it on one registry.
- ReadableFormat.ParseProps: its own contract states only the consumed range; the read-back of written properties is stated by Agreement.PropsAt and Agreement.EntryAt.
