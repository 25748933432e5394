/** The encoder: the schema compiler that builds the table of custom types
    reachable from a root type, the type-code writer, the schema block
    writer, the content writer and the document framing.

    Host types are abstract: the reflection collaborator is a registry that
    lists, for each custom type, its readable properties in declaration
    order. A custom type is identified by its HostType value, as the
    source identifies it by its runtime type. */
module Serializer {
  import opened Wrappers
  import opened BinaryUtils

  /** The concrete runtime types the classifier tells apart. */
  datatype PrimKind =
    | Boolean
    | SByte | Byte | Int16 | UInt16 | Int32 | UInt32 | Int64 | UInt64
    | Single | Double
    | Char | String

  /** What a constructed generic type is assignable from. */
  datatype GenericKind =
    | ListCompatible          // assignable from List<T> for its arguments
    | DictionaryCompatible    // assignable from Dictionary<K, V> for its arguments
    | OtherGeneric(name: nat) // any other generic type

  datatype HostType =
    | Prim(kind: PrimKind)
    | NativeArray(elem: HostType, rank: nat)
    | Generic(generic: GenericKind, args: seq<HostType>)
    | Named(id: nat)

  /** A readable property: its (possibly renamed) name and declared type. */
  datatype Property = Property(name: seq<byte>, ty: HostType)

  /** The reflection collaborator: the property list of each custom type. */
  type Registry = map<HostType, seq<Property>>

  /** A runtime value as the property getters return it. Primitive values
      are already in their wire form. */
  datatype HostValue =
    | Null
    | BoolV(b: bool)
    | IntV(i: i32)
    | DoubleV(bits: u64)
    | StrV(s: seq<byte>)
    | ArrayV(items: seq<HostValue>)
    | MapV
    | ObjectV(values: seq<HostValue>)

  const Magic: u16 := 0x54FA
  const Version: byte := 1
  const ArrayCode: u32 := 5
  const CustomBase: u32 := 7
  /** Table sizes for which IndexOf + 7 stays inside a 32-bit signed int. */
  const MaxEntries: nat := 0x7FFF_FFF8

  // ---------------------------------------------------------------------
  // Classification (GetPredefinedTypeId)

  /** 1..4 for the primitive families, 5 for rank-1 arrays and list-like
      single-argument generics, 6 for string-keyed dictionaries, -1 for
      every other type, which is a custom type. */
  function PredefinedTypeId(t: HostType): (r: int)
    ensures r != 0 && -1 <= r <= 6
    ensures 1 <= r <= 4 <==> t.Prim?
    ensures r == 1 <==> t == Prim(Boolean)
    ensures r == 2 <==> t.Prim? && t.kind in {SByte, Byte, Int16, UInt16, Int32, UInt32, Int64, UInt64}
    ensures r == 3 <==> t == Prim(Single) || t == Prim(Double)
    ensures r == 4 <==> t == Prim(Char) || t == Prim(String)
    ensures r == 5 <==> ((t.NativeArray? && t.rank == 1)
                      || (t.Generic? && t.generic == ListCompatible && |t.args| == 1))
    ensures r == 6 <==> (t.Generic? && t.generic == DictionaryCompatible
                      && |t.args| == 2 && t.args[0] == Prim(String))
  {
    match t
    case Prim(k) => (
      match k
      case Boolean => 1
      case SByte => 2
      case Byte => 2
      case Int16 => 2
      case UInt16 => 2
      case Int32 => 2
      case UInt32 => 2
      case Int64 => 2
      case UInt64 => 2
      case Single => 3
      case Double => 3
      case Char => 4
      case String => 4)
    case NativeArray(_, rank) => if rank == 1 then 5 else -1
    case Generic(g, args) =>
      if |args| == 1 && g == ListCompatible then 5
      else if |args| == 2 && args[0] == Prim(String) && g == DictionaryCompatible then 6
      else -1
    case Named(_) => -1
  }

  predicate IsCustom(t: HostType) {
    PredefinedTypeId(t) == -1
  }

  /** The item type of an array-like type. */
  function ElementType(t: HostType): (e: HostType)
    requires PredefinedTypeId(t) == 5
    ensures e < t
  {
    if t.NativeArray? then t.elem else t.args[0]
  }

  /** The type under all array layers. */
  function Unwrap(t: HostType): (u: HostType)
    ensures PredefinedTypeId(u) != 5
  {
    if PredefinedTypeId(t) == 5 then Unwrap(ElementType(t)) else t
  }

  function ArrayDepth(t: HostType): nat {
    if PredefinedTypeId(t) == 5 then 1 + ArrayDepth(ElementType(t)) else 0
  }

  // ---------------------------------------------------------------------
  // The schema compiler (GetTypes / AddTypes)

  /** The reflection collaborator answers for every custom type a property
      leads to. */
  ghost predicate RegistryComplete(reg: Registry) {
    forall e, i :: e in reg && 0 <= i < |reg[e]| ==> Covers(reg, reg[e][i].ty)
  }

  /** A type whose custom part, if any, is known to the registry. */
  ghost predicate Covers(reg: Registry, t: HostType) {
    IsCustom(Unwrap(t)) ==> Unwrap(t) in reg
  }

  function Elems(s: seq<HostType>): set<HostType> {
    set x | x in s
  }

  predicate NoDuplicates(s: seq<HostType>) {
    forall i, j :: 0 <= i < j < |s| ==> s[i] != s[j]
  }

  /** One step of the compiler turned visited set V into V' and produced
      entries E: the new entries are exactly the newly visited types, each a
      custom type of the registry, each once, and every custom type a new
      entry's property leads to has been visited. */
  ghost predicate Discovered(reg: Registry, V: set<HostType>, E: seq<HostType>, V': set<HostType>) {
    && V' == V + Elems(E)
    && NoDuplicates(E)
    && (forall i :: 0 <= i < |E| ==> E[i] !in V && E[i] in reg && IsCustom(E[i]))
    && (forall i, j ::
          (0 <= i < |E| && E[i] in reg && 0 <= j < |reg[E[i]]| && IsCustom(Unwrap(reg[E[i]][j].ty)))
          ==> Unwrap(reg[E[i]][j].ty) in V')
  }

  lemma FewerUnvisited(K: set<HostType>, V: set<HostType>, V': set<HostType>)
    requires V <= V'
    ensures |K - V'| <= |K - V|
  {
    SubsetCount(K - V', K - V);
  }

  lemma StrictlyFewerUnvisited(K: set<HostType>, V: set<HostType>, t: HostType)
    requires t in K && t !in V
    ensures |K - (V + {t})| < |K - V|
  {
    assert K - (V + {t}) == (K - V) - {t};
  }

  /** The entries discovered from type t, children before parents, and the
      visited set afterwards. Arrays contribute their item type's entries,
      primitives and maps nothing, a visited type nothing. */
  function Discover(reg: Registry, t: HostType, visited: set<HostType>): (r: (seq<HostType>, set<HostType>))
    requires RegistryComplete(reg) && Covers(reg, t)
    ensures visited <= r.1
    decreases |reg.Keys - visited|, 0, t
  {
    var id := PredefinedTypeId(t);
    if id == 5 then Discover(reg, ElementType(t), visited)
    else if id >= 0 || t in visited then ([], visited)
    else
      StrictlyFewerUnvisited(reg.Keys, visited, t);
      var (E, V') := DiscoverAll(reg, reg[t], visited + {t});
      (E + [t], V')
  }

  /** The entries discovered from each property type in turn. */
  function DiscoverAll(reg: Registry, props: seq<Property>, visited: set<HostType>)
    : (r: (seq<HostType>, set<HostType>))
    requires RegistryComplete(reg)
    requires forall i :: 0 <= i < |props| ==> Covers(reg, props[i].ty)
    ensures visited <= r.1
    decreases |reg.Keys - visited|, 1, props
  {
    if props == [] then ([], visited)
    else
      var (E1, V1) := Discover(reg, props[0].ty, visited);
      FewerUnvisited(reg.Keys, visited, V1);
      assert forall i :: 0 <= i < |props| - 1 ==> props[1..][i] == props[i + 1];
      var (E2, V2) := DiscoverAll(reg, props[1..], V1);
      (E1 + E2, V2)
  }

  /** Discovery from t marks exactly the entries it emits, each a custom
      type of the registry not visited before and emitted once; every
      custom type their properties lead to ends up visited; t's custom part
      ends up visited, and is emitted last when it was new. */
  lemma {:induction false} DiscoverSound(reg: Registry, t: HostType, visited: set<HostType>)
    requires RegistryComplete(reg) && Covers(reg, t)
    ensures var r := Discover(reg, t, visited);
      && Discovered(reg, visited, r.0, r.1)
      && (IsCustom(Unwrap(t)) ==> Unwrap(t) in r.1)
      && (IsCustom(Unwrap(t)) && Unwrap(t) !in visited ==> r.0 != [] && r.0[|r.0| - 1] == Unwrap(t))
      && (!IsCustom(Unwrap(t)) || Unwrap(t) in visited ==> r.0 == [])
    decreases |reg.Keys - visited|, 0, t
  {
    var id := PredefinedTypeId(t);
    if id == 5 {
      DiscoverSound(reg, ElementType(t), visited);
    } else if id < 0 && t !in visited {
      StrictlyFewerUnvisited(reg.Keys, visited, t);
      var w := DiscoverAll(reg, reg[t], visited + {t});
      DiscoverAllSound(reg, reg[t], visited + {t});
      EmitAfterChildren(reg, visited, t, w.0, w.1);
    }
  }

  /** Emitting a newly marked custom type after the entries its properties
      discovered keeps the discovery facts. */
  lemma EmitAfterChildren(reg: Registry, visited: set<HostType>, t: HostType, E: seq<HostType>, V': set<HostType>)
    requires t in reg && IsCustom(t) && t !in visited
    requires Discovered(reg, visited + {t}, E, V')
    requires forall j :: 0 <= j < |reg[t]| && IsCustom(Unwrap(reg[t][j].ty)) ==> Unwrap(reg[t][j].ty) in V'
    ensures Discovered(reg, visited, E + [t], V')
  {
    assert t !in Elems(E);
    assert Elems(E + [t]) == Elems(E) + {t};
    forall i, j | 0 <= i < j < |E + [t]| ensures (E + [t])[i] != (E + [t])[j] {
      if j == |E| {
        assert (E + [t])[i] in Elems(E);
      }
    }
  }

  /** The same facts for the walk over a property list, and every custom
      type a listed property leads to ends up visited. */
  lemma {:induction false} DiscoverAllSound(reg: Registry, props: seq<Property>, visited: set<HostType>)
    requires RegistryComplete(reg)
    requires forall i :: 0 <= i < |props| ==> Covers(reg, props[i].ty)
    ensures var r := DiscoverAll(reg, props, visited);
      && Discovered(reg, visited, r.0, r.1)
      && (forall i :: 0 <= i < |props| && IsCustom(Unwrap(props[i].ty)) ==> Unwrap(props[i].ty) in r.1)
    decreases |reg.Keys - visited|, 1, props
  {
    if props != [] {
      var r1 := Discover(reg, props[0].ty, visited);
      FewerUnvisited(reg.Keys, visited, r1.1);
      DiscoverSound(reg, props[0].ty, visited);
      assert forall i :: 0 <= i < |props| - 1 ==> props[1..][i] == props[i + 1];
      var r2 := DiscoverAll(reg, props[1..], r1.1);
      DiscoverAllSound(reg, props[1..], r1.1);
      DiscoveredConcat(reg, visited, r1.0, r1.1, r2.0, r2.1);
      WalkCovers(reg, props, r1.1, r2.1);
    }
  }

  /** The head's custom part is visited after the head, and stays visited;
      the tail's are visited by the tail's walk. */
  lemma WalkCovers(reg: Registry, props: seq<Property>, V1: set<HostType>, V2: set<HostType>)
    requires props != [] && V1 <= V2
    requires IsCustom(Unwrap(props[0].ty)) ==> Unwrap(props[0].ty) in V1
    requires forall i :: 0 <= i < |props[1..]| && IsCustom(Unwrap(props[1..][i].ty)) ==> Unwrap(props[1..][i].ty) in V2
    ensures forall i :: 0 <= i < |props| && IsCustom(Unwrap(props[i].ty)) ==> Unwrap(props[i].ty) in V2
  {
    forall i | 0 <= i < |props| && IsCustom(Unwrap(props[i].ty)) ensures Unwrap(props[i].ty) in V2 {
      if i > 0 {
        assert props[i] == props[1..][i - 1];
      }
    }
  }

  lemma DiscoveredConcat(reg: Registry, V: set<HostType>, E1: seq<HostType>, V1: set<HostType>,
                         E2: seq<HostType>, V2: set<HostType>)
    requires Discovered(reg, V, E1, V1) && Discovered(reg, V1, E2, V2)
    ensures Discovered(reg, V, E1 + E2, V2)
  {
    var E := E1 + E2;
    assert Elems(E) == Elems(E1) + Elems(E2);
    forall i, j | 0 <= i < j < |E| ensures E[i] != E[j] {
      if j >= |E1| && i < |E1| {
        assert E[i] in Elems(E1);
      }
    }
  }

  // ---------------------------------------------------------------------
  // Reachability and the order of the entries

  /** b is the custom part of the type of one of a's properties. */
  ghost predicate Edge(reg: Registry, a: HostType, b: HostType) {
    a in reg && exists q :: q in reg[a] && Unwrap(q.ty) == b
  }

  /** A walk along property types, arrays unwrapped. */
  ghost predicate IsPath(reg: Registry, p: seq<HostType>) {
    p != [] && forall k :: 0 <= k < |p| - 1 ==> Edge(reg, p[k], p[k + 1])
  }

  /** b is reached from a by following property types. */
  ghost predicate Reaches(reg: Registry, a: HostType, b: HostType) {
    exists p :: IsPath(reg, p) && p[0] == a && p[|p| - 1] == b
  }

  lemma ReachesSelf(reg: Registry, a: HostType)
    ensures Reaches(reg, a, a)
  {
    assert IsPath(reg, [a]);
  }

  lemma ReachesThrough(reg: Registry, a: HostType, b: HostType, c: HostType)
    requires Edge(reg, a, b) && Reaches(reg, b, c)
    ensures Reaches(reg, a, c)
  {
    var p :| IsPath(reg, p) && p[0] == b && p[|p| - 1] == c;
    var p' := [a] + p;
    forall k | 0 <= k < |p'| - 1 ensures Edge(reg, p'[k], p'[k + 1]) {
      if k > 0 {
        assert p'[k] == p[k - 1] && p'[k + 1] == p[k];
      }
    }
    assert IsPath(reg, p') && p'[0] == a && p'[|p'| - 1] == c;
  }

  lemma PropertyEdge(reg: Registry, owner: HostType, q: Property)
    requires owner in reg && q in reg[owner]
    ensures Edge(reg, owner, Unwrap(q.ty))
  {
  }

  /** Every entry discovered from t is reached from t's custom part. */
  lemma {:induction false} DiscoverReaches(reg: Registry, t: HostType, visited: set<HostType>)
    requires RegistryComplete(reg) && Covers(reg, t)
    ensures forall x :: x in Discover(reg, t, visited).0 ==> Reaches(reg, Unwrap(t), x)
    decreases |reg.Keys - visited|, 0, t
  {
    var id := PredefinedTypeId(t);
    if id == 5 {
      DiscoverReaches(reg, ElementType(t), visited);
    } else if id < 0 && t !in visited {
      StrictlyFewerUnvisited(reg.Keys, visited, t);
      DiscoverAllReaches(reg, reg[t], visited + {t}, t);
      ReachesSelf(reg, t);
    }
  }

  /** Every entry discovered over some of owner's properties is reached
      from owner. */
  lemma {:induction false} DiscoverAllReaches(reg: Registry, props: seq<Property>, visited: set<HostType>,
                                               owner: HostType)
    requires RegistryComplete(reg)
    requires forall i :: 0 <= i < |props| ==> Covers(reg, props[i].ty)
    requires owner in reg && forall i :: 0 <= i < |props| ==> props[i] in reg[owner]
    ensures forall x :: x in DiscoverAll(reg, props, visited).0 ==> Reaches(reg, owner, x)
    decreases |reg.Keys - visited|, 1, props
  {
    if props != [] {
      var r1 := Discover(reg, props[0].ty, visited);
      FewerUnvisited(reg.Keys, visited, r1.1);
      DiscoverReaches(reg, props[0].ty, visited);
      assert forall i :: 0 <= i < |props| - 1 ==> props[1..][i] == props[i + 1];
      DiscoverAllReaches(reg, props[1..], r1.1, owner);
      PropertyEdge(reg, owner, props[0]);
      forall x | x in r1.0 ensures Reaches(reg, owner, x) {
        ReachesThrough(reg, owner, Unwrap(props[0].ty), x);
      }
    }
  }

  /** Every custom type an entry's property leads to was visited before
      the walk began, is an earlier entry, or leads back to the entry. */
  ghost predicate PostOrdered(reg: Registry, V: set<HostType>, E: seq<HostType>) {
    forall i, q :: 0 <= i < |E| && E[i] in reg && q in reg[E[i]] && IsCustom(Unwrap(q.ty)) ==>
      Unwrap(q.ty) in V || Unwrap(q.ty) in E[..i] || Reaches(reg, Unwrap(q.ty), E[i])
  }

  /** Discovery emits a type after the entries first discovered through
      its properties. */
  lemma {:induction false} DiscoverPostOrder(reg: Registry, t: HostType, visited: set<HostType>)
    requires RegistryComplete(reg) && Covers(reg, t)
    ensures PostOrdered(reg, visited, Discover(reg, t, visited).0)
    decreases |reg.Keys - visited|, 0, t
  {
    var id := PredefinedTypeId(t);
    if id == 5 {
      DiscoverPostOrder(reg, ElementType(t), visited);
    } else if id < 0 && t !in visited {
      StrictlyFewerUnvisited(reg.Keys, visited, t);
      var w := DiscoverAll(reg, reg[t], visited + {t});
      DiscoverAllPostOrder(reg, reg[t], visited + {t});
      DiscoverAllReaches(reg, reg[t], visited + {t}, t);
      DiscoverAllSound(reg, reg[t], visited + {t});
      EmitPostOrdered(reg, visited, t, w.0);
    }
  }

  lemma {:induction false} DiscoverAllPostOrder(reg: Registry, props: seq<Property>, visited: set<HostType>)
    requires RegistryComplete(reg)
    requires forall i :: 0 <= i < |props| ==> Covers(reg, props[i].ty)
    ensures PostOrdered(reg, visited, DiscoverAll(reg, props, visited).0)
    decreases |reg.Keys - visited|, 1, props
  {
    if props != [] {
      var r1 := Discover(reg, props[0].ty, visited);
      FewerUnvisited(reg.Keys, visited, r1.1);
      DiscoverPostOrder(reg, props[0].ty, visited);
      DiscoverSound(reg, props[0].ty, visited);
      assert forall i :: 0 <= i < |props| - 1 ==> props[1..][i] == props[i + 1];
      DiscoverAllPostOrder(reg, props[1..], r1.1);
      ConcatPostOrdered(reg, visited, r1.0, DiscoverAll(reg, props[1..], r1.1).0);
    }
  }

  lemma ConcatPostOrdered(reg: Registry, V: set<HostType>, E1: seq<HostType>, E2: seq<HostType>)
    requires PostOrdered(reg, V, E1) && PostOrdered(reg, V + Elems(E1), E2)
    ensures PostOrdered(reg, V, E1 + E2)
  {
    var E := E1 + E2;
    forall i, q | 0 <= i < |E| && E[i] in reg && q in reg[E[i]] && IsCustom(Unwrap(q.ty))
      ensures Unwrap(q.ty) in V || Unwrap(q.ty) in E[..i] || Reaches(reg, Unwrap(q.ty), E[i])
    {
      if i < |E1| {
        assert E[i] == E1[i] && E[..i] == E1[..i];
      } else {
        var u := Unwrap(q.ty);
        assert E[i] == E2[i - |E1|] && E[..i] == E1 + E2[..i - |E1|];
        if u in Elems(E1) {
          assert u in E[..i];
        }
      }
    }
  }

  lemma EmitPostOrdered(reg: Registry, V: set<HostType>, t: HostType, E: seq<HostType>)
    requires t in reg
    requires PostOrdered(reg, V + {t}, E)
    requires forall x :: x in E ==> Reaches(reg, t, x)
    requires forall i :: 0 <= i < |reg[t]| && IsCustom(Unwrap(reg[t][i].ty))
               ==> Unwrap(reg[t][i].ty) in V + {t} + Elems(E)
    ensures PostOrdered(reg, V, E + [t])
  {
    var E' := E + [t];
    forall i, q | 0 <= i < |E'| && E'[i] in reg && q in reg[E'[i]] && IsCustom(Unwrap(q.ty))
      ensures Unwrap(q.ty) in V || Unwrap(q.ty) in E'[..i] || Reaches(reg, Unwrap(q.ty), E'[i])
    {
      var u := Unwrap(q.ty);
      if i < |E| {
        assert E'[i] == E[i] && E'[..i] == E[..i];
        if u == t {
          assert E[i] in E;
        }
      } else {
        assert E'[i] == t && E'[..i] == E;
        var j :| 0 <= j < |reg[t]| && reg[t][j] == q;
        if u == t {
          ReachesSelf(reg, t);
        }
      }
    }
  }

  /** The table of custom types reachable from the root type. */
  function CompileTable(reg: Registry, root: HostType): (types: seq<HostType>)
    requires RegistryComplete(reg) && Covers(reg, root)
    ensures NoDuplicates(types)
    ensures forall i :: 0 <= i < |types| ==> IsCustom(types[i]) && types[i] in reg
    ensures TableClosed(reg, types)
    ensures IsCustom(Unwrap(root)) ==> types != [] && types[|types| - 1] == Unwrap(root)
    ensures !IsCustom(Unwrap(root)) ==> types == []
    ensures |types| <= |reg|
  {
    DiscoverSound(reg, root, {});
    var r := Discover(reg, root, {});
    DiscoveryIsTable(reg, r.0, r.1);
    r.0
  }

  /** The compiled table holds only types reached from the root, and lists
      every type after the types its properties lead to, except those that
      lead back to it: the post-order of the walk. */
  lemma TableOrder(reg: Registry, root: HostType)
    requires RegistryComplete(reg) && Covers(reg, root)
    ensures var types := CompileTable(reg, root);
      && (forall x :: x in types ==> Reaches(reg, Unwrap(root), x))
      && (forall i, q :: 0 <= i < |types| && types[i] in reg && q in reg[types[i]] && IsCustom(Unwrap(q.ty)) ==>
            Unwrap(q.ty) in types[..i] || Reaches(reg, Unwrap(q.ty), types[i]))
  {
    DiscoverReaches(reg, root, {});
    DiscoverPostOrder(reg, root, {});
  }

  /** A registry whose type 0 has properties of types 1 and 2, and whose
      types 1, 2 and 3 have none. */
  function ExampleRegistry(): Registry {
    map[Named(0) := [Property([0x61], Named(1)), Property([0x62], Named(2))],
        Named(1) := [], Named(2) := [], Named(3) := []]
  }

  lemma ExampleComplete()
    ensures RegistryComplete(ExampleRegistry())
  {
  }

  lemma ExampleLeaf(k: nat, visited: set<HostType>)
    requires k == 1 || k == 2
    requires Named(k) !in visited
    ensures RegistryComplete(ExampleRegistry())
    ensures Discover(ExampleRegistry(), Named(k), visited) == ([Named(k)], visited + {Named(k)})
  {
    ExampleComplete();
    assert ExampleRegistry()[Named(k)] == [];
    assert [] + [Named(k)] == [Named(k)];
  }

  /** From type 0 the table is its two property types in declaration
      order, then type 0 itself; type 3, which it does not reach, is left
      out. */
  lemma TableExample()
    ensures RegistryComplete(ExampleRegistry())
    ensures CompileTable(ExampleRegistry(), Named(0)) == [Named(1), Named(2), Named(0)]
  {
    ExampleComplete();
    var reg := ExampleRegistry();
    var ps := reg[Named(0)];
    var v0 := {} + {Named(0)};
    ExampleLeaf(1, v0);
    ExampleLeaf(2, v0 + {Named(1)});
    assert ps[1..][1..] == [];
    assert DiscoverAll(reg, ps[1..], v0 + {Named(1)}).0 == [Named(2)];
    assert DiscoverAll(reg, ps, v0).0 == [Named(1), Named(2)];
    assert Discover(reg, Named(0), {}).0 == [Named(1), Named(2)] + [Named(0)];
  }

  /** Discovery from an empty visited set yields a closed table. */
  lemma DiscoveryIsTable(reg: Registry, E: seq<HostType>, V: set<HostType>)
    requires Discovered(reg, {}, E, V)
    ensures TableClosed(reg, E) && |E| <= |reg|
  {
    assert forall x :: x in V ==> x in E;
    DistinctCount(E);
    assert Elems(E) <= reg.Keys;
    SubsetCount(Elems(E), reg.Keys);
  }

  lemma {:induction false} DistinctCount(s: seq<HostType>)
    requires NoDuplicates(s)
    ensures |Elems(s)| == |s|
  {
    if s != [] {
      var last := s[|s| - 1];
      assert Elems(s) == Elems(s[..|s| - 1]) + {last};
      assert last !in Elems(s[..|s| - 1]);
      DistinctCount(s[..|s| - 1]);
    }
  }

  lemma SubsetCount(A: set<HostType>, B: set<HostType>)
    requires A <= B
    ensures |A| <= |B|
  {
    assert B == A + (B - A);
    assert A !! (B - A);
  }

  /** Every custom type a table entry's property leads to is in the table. */
  ghost predicate TableClosed(reg: Registry, types: seq<HostType>) {
    forall i, j :: 0 <= i < |types| && types[i] in reg && 0 <= j < |reg[types[i]]|
      && IsCustom(Unwrap(reg[types[i]][j].ty))
      ==> Unwrap(reg[types[i]][j].ty) in types
  }

  // ---------------------------------------------------------------------
  // Type codes (WriteTypeId)

  /** Position of the first occurrence of t, or -1. */
  function IndexOf(types: seq<HostType>, t: HostType): (r: int)
    ensures -1 <= r < |types|
    ensures r == -1 <==> t !in types
    ensures r >= 0 ==> types[r] == t && forall j :: 0 <= j < r ==> types[j] != t
  {
    if types == [] then -1
    else if types[0] == t then 0
    else var k := IndexOf(types[1..], t); if k == -1 then -1 else k + 1
  }

  /** The words written for type t: one 5 per array layer, then the code of
      the type beneath. A custom type is written as its table index plus 7;
      a custom type missing from the table has index -1 and so comes out
      as 6. */
  function TypeIdWords(types: seq<HostType>, t: HostType): (r: seq<u32>)
    requires |types| <= MaxEntries
    ensures |r| == ArrayDepth(t) + 1
    ensures forall i :: 0 <= i < ArrayDepth(t) ==> r[i] == ArrayCode
    ensures r[|r| - 1] != ArrayCode
    ensures !IsCustom(Unwrap(t)) ==> r[|r| - 1] == PredefinedTypeId(Unwrap(t))
    ensures IsCustom(Unwrap(t)) ==> r[|r| - 1] == IndexOf(types, Unwrap(t)) + CustomBase
    decreases t
  {
    var id := PredefinedTypeId(t);
    if id >= 0 then
      if id == 5 then [ArrayCode] + TypeIdWords(types, ElementType(t)) else [id]
    else
      [IndexOf(types, t) + CustomBase]
  }

  /** Under a table that holds the type's custom part, the final word is a
      custom code 7 + index inside the table, never the 6 of a missing type. */
  lemma {:induction false} CustomCodeInRange(types: seq<HostType>, t: HostType)
    requires IsCustom(Unwrap(t)) && Unwrap(t) in types && |types| <= MaxEntries
    ensures var w := TypeIdWords(types, t)[ArrayDepth(t)];
      CustomBase <= w < CustomBase + |types| && types[w - CustomBase] == Unwrap(t)
    decreases t
  {
    if PredefinedTypeId(t) == 5 {
      CustomCodeInRange(types, ElementType(t));
    }
  }

  /** Words as the writer emits them: 32-bit little-endian, in order. */
  function WordsBytes(ws: seq<u32>): (r: seq<byte>)
    ensures |r| == 4 * |ws|
  {
    if ws == [] then [] else EncodeUInt(ws[0]) + WordsBytes(ws[1..])
  }

  // ---------------------------------------------------------------------
  // The schema block (SerializeTypes)

  function PropertyBytes(types: seq<HostType>, p: Property): seq<byte>
    requires |types| <= MaxEntries
  {
    EncodeString(p.name) + WordsBytes(TypeIdWords(types, p.ty))
  }

  function PropertiesBytes(types: seq<HostType>, props: seq<Property>): seq<byte>
    requires |types| <= MaxEntries
  {
    if props == [] then []
    else PropertiesBytes(types, props[..|props| - 1]) + PropertyBytes(types, props[|props| - 1])
  }

  /** One entry: each property's name and type code, then a 0 byte. */
  function EntryBytes(reg: Registry, types: seq<HostType>, e: HostType): seq<byte>
    requires e in reg && |types| <= MaxEntries
  {
    PropertiesBytes(types, reg[e]) + [0]
  }

  function EntriesBytes(reg: Registry, types: seq<HostType>, es: seq<HostType>): seq<byte>
    requires forall i :: 0 <= i < |es| ==> es[i] in reg
    requires |types| <= MaxEntries
  {
    if es == [] then []
    else EntriesBytes(reg, types, es[..|es| - 1]) + EntryBytes(reg, types, es[|es| - 1])
  }

  /** The entry count, then every entry in table order. */
  function TypesBlock(reg: Registry, types: seq<HostType>): seq<byte>
    requires InRegistry(reg, types) && |types| <= MaxEntries
  {
    EncodeUInt(|types|) + EntriesBytes(reg, types, types)
  }

  // ---------------------------------------------------------------------
  // The content block (SerializeContent)

  ghost predicate InRegistry(reg: Registry, types: seq<HostType>) {
    forall i :: 0 <= i < |types| ==> types[i] in reg
  }

  /** The bytes written for value v declared with type t: a null is one 0
      byte; a non-null primitive is its fixed-width or NUL-terminated form
      with no presence byte; a native array is its 32-bit length and its
      items under the item type; a list-like collection writes nothing when
      empty and fails otherwise; a non-null map writes nothing; a custom
      value writes its properties in the table entry's order. */
  function EncodeContent(reg: Registry, types: seq<HostType>, v: HostValue, t: HostType)
    : (r: Result<seq<byte>>)
    requires InRegistry(reg, types)
    ensures v.Null? ==> r == Ok([0])
    decreases v
  {
    if v.Null? then Ok([0])
    else
      var id := PredefinedTypeId(t);
      if id == 1 then
        if v.BoolV? then Ok(EncodeBool(v.b)) else Err(UnsupportedValue)
      else if id == 2 then
        if v.IntV? then Ok(EncodeInt(v.i)) else Err(UnsupportedValue)
      else if id == 3 then
        if v.DoubleV? then Ok(EncodeULong(v.bits)) else Err(UnsupportedValue)
      else if id == 4 then
        if v.StrV? then Ok(EncodeString(v.s)) else Err(UnsupportedValue)
      else if id == 5 then
        if !v.ArrayV? then Err(UnsupportedValue)
        else if t.NativeArray? then
          match EncodeItems(reg, types, v.items, ElementType(t), |v.items|)
          case Ok(body) => Ok(EncodeUInt(|v.items| % 0x1_0000_0000) + body)
          case Err(e) => Err(e)
        else if v.items == [] then Ok([])
        else Err(UnsupportedValue)
      else if id == 6 then Ok([])
      else if t !in types then Err(CustomTypeNotFound)
      else if !v.ObjectV? || |v.values| != |reg[t]| then Err(UnsupportedValue)
      else EncodeFields(reg, types, v.values, reg[t], |reg[t]|)
  }

  /** The first n items, each under the item type, in order. */
  function EncodeItems(reg: Registry, types: seq<HostType>, items: seq<HostValue>, elem: HostType, n: nat)
    : Result<seq<byte>>
    requires InRegistry(reg, types) && n <= |items|
    decreases items, n
  {
    if n == 0 then Ok([])
    else match EncodeItems(reg, types, items, elem, n - 1)
      case Err(e) => Err(e)
      case Ok(front) =>
        match EncodeContent(reg, types, items[n - 1], elem)
        case Err(e) => Err(e)
        case Ok(last) => Ok(front + last)
  }

  /** The first n property values, each under its property's type, in order. */
  function EncodeFields(reg: Registry, types: seq<HostType>, values: seq<HostValue>, props: seq<Property>, n: nat)
    : Result<seq<byte>>
    requires InRegistry(reg, types) && n <= |values| && n <= |props|
    decreases values, n
  {
    if n == 0 then Ok([])
    else match EncodeFields(reg, types, values, props, n - 1)
      case Err(e) => Err(e)
      case Ok(front) =>
        match EncodeContent(reg, types, values[n - 1], props[n - 1].ty)
        case Err(e) => Err(e)
        case Ok(last) => Ok(front + last)
  }

  // ---------------------------------------------------------------------
  // The document (Serialize)

  function Header(typesLength: nat, contentLength: nat): seq<byte> {
    EncodeUShort(Magic) + [Version]
      + EncodeUInt(typesLength % 0x1_0000_0000) + EncodeUInt(contentLength % 0x1_0000_0000)
  }

  /** Magic, version, the two block lengths, the schema block and the
      content block. */
  function Document(reg: Registry, v: HostValue, root: HostType): Result<seq<byte>>
    requires RegistryComplete(reg) && Covers(reg, root) && |reg| <= MaxEntries
  {
    var types := CompileTable(reg, root);
    var typesBuffer := TypesBlock(reg, types);
    match EncodeContent(reg, types, v, root)
    case Err(e) => Err(e)
    case Ok(contentBuffer) => Ok(Frame(typesBuffer, contentBuffer))
  }

  function Frame(typesBuffer: seq<byte>, contentBuffer: seq<byte>): seq<byte> {
    Header(|typesBuffer|, |contentBuffer|) + typesBuffer + contentBuffer
  }

  // ---------------------------------------------------------------------
  // Properties of the encoder

  /** The values the content writer accepts under declared type t. */
  ghost predicate WellTyped(reg: Registry, v: HostValue, t: HostType)
    decreases v
  {
    if v.Null? then true
    else
      var id := PredefinedTypeId(t);
      if id == 1 then v.BoolV?
      else if id == 2 then v.IntV?
      else if id == 3 then v.DoubleV?
      else if id == 4 then v.StrV?
      else if id == 5 then
        && v.ArrayV?
        && (t.NativeArray? ==> forall i :: 0 <= i < |v.items| ==> WellTyped(reg, v.items[i], ElementType(t)))
        && (!t.NativeArray? ==> v.items == [])
      else if id == 6 then true
      else
        && t in reg && v.ObjectV? && |v.values| == |reg[t]|
        && forall i :: 0 <= i < |v.values| ==> WellTyped(reg, v.values[i], reg[t][i].ty)
  }

  /** A type whose custom part is an entry of the table. */
  ghost predicate InTable(types: seq<HostType>, t: HostType) {
    IsCustom(Unwrap(t)) ==> Unwrap(t) in types
  }

  /** Over a closed table that holds the declared type, the content writer
      succeeds exactly on well-typed values: it never meets a custom type
      missing from the table, and a non-empty list-like collection always
      fails. */
  lemma {:induction false} ContentOk(reg: Registry, types: seq<HostType>, v: HostValue, t: HostType)
    requires InRegistry(reg, types) && TableClosed(reg, types) && InTable(types, t)
    ensures EncodeContent(reg, types, v, t).Ok? <==> WellTyped(reg, v, t)
    decreases v
  {
    if !v.Null? {
      var id := PredefinedTypeId(t);
      if id == 5 && v.ArrayV? && t.NativeArray? {
        ItemsOk(reg, types, v.items, ElementType(t), |v.items|);
      } else if id == -1 && t in types && v.ObjectV? && |v.values| == |reg[t]| {
        var k := IndexOf(types, t);
        forall j | 0 <= j < |reg[t]| ensures InTable(types, reg[t][j].ty) {
          assert types[k] == t;
        }
        FieldsOk(reg, types, v.values, reg[t], |reg[t]|);
      }
    }
  }

  lemma {:induction false} ItemsOk(reg: Registry, types: seq<HostType>, items: seq<HostValue>, elem: HostType, n: nat)
    requires InRegistry(reg, types) && TableClosed(reg, types) && InTable(types, elem)
    requires n <= |items|
    ensures EncodeItems(reg, types, items, elem, n).Ok?
            <==> forall i :: 0 <= i < n ==> WellTyped(reg, items[i], elem)
    decreases items, n
  {
    if n > 0 {
      ItemsOk(reg, types, items, elem, n - 1);
      ContentOk(reg, types, items[n - 1], elem);
    }
  }

  lemma {:induction false} FieldsOk(reg: Registry, types: seq<HostType>, values: seq<HostValue>,
                                    props: seq<Property>, n: nat)
    requires InRegistry(reg, types) && TableClosed(reg, types)
    requires n <= |values| && n <= |props|
    requires forall j :: 0 <= j < n ==> InTable(types, props[j].ty)
    ensures EncodeFields(reg, types, values, props, n).Ok?
            <==> forall i :: 0 <= i < n ==> WellTyped(reg, values[i], props[i].ty)
    decreases values, n
  {
    if n > 0 {
      FieldsOk(reg, types, values, props, n - 1);
      ContentOk(reg, types, values[n - 1], props[n - 1].ty);
    }
  }

  /** Every type code the schema block writes for a custom property type is
      7 plus that type's index in the compiled table. */
  lemma TableCodesResolve(reg: Registry, root: HostType, i: nat, j: nat)
    requires RegistryComplete(reg) && Covers(reg, root) && |reg| <= MaxEntries
    requires i < |CompileTable(reg, root)|
    requires j < |reg[CompileTable(reg, root)[i]]|
    requires IsCustom(Unwrap(reg[CompileTable(reg, root)[i]][j].ty))
    ensures var types := CompileTable(reg, root);
      var ty := reg[types[i]][j].ty;
      var w := TypeIdWords(types, ty)[ArrayDepth(ty)];
      CustomBase <= w < CustomBase + |types| && types[w - CustomBase] == Unwrap(ty)
  {
    var types := CompileTable(reg, root);
    CustomCodeInRange(types, reg[types[i]][j].ty);
  }

  /** The header is the bytes FA 54, the version 1 and the two block
      lengths as 32-bit little-endian words, eleven bytes in all. */
  lemma HeaderLayout(typesLength: nat, contentLength: nat, rest: seq<byte>)
    ensures var doc := Header(typesLength, contentLength) + rest;
      && |Header(typesLength, contentLength)| == 11
      && doc[..3] == [0xFA, 0x54, 1]
      && ParseUShort(doc, 0) == Ok((Magic, 2))
      && ParseUInt(doc, 3) == Ok((typesLength % 0x1_0000_0000, 7))
      && ParseUInt(doc, 7) == Ok((contentLength % 0x1_0000_0000, 11))
      && doc[11..] == rest
  {
    var m := EncodeUShort(Magic);
    var t := EncodeUInt(typesLength % 0x1_0000_0000);
    var c := EncodeUInt(contentLength % 0x1_0000_0000);
    var doc := Header(typesLength, contentLength) + rest;
    assert doc == m + ([Version] + t + c + rest);
    UShortRoundTrip(Magic, [], [Version] + t + c + rest);
    assert [] + m + ([Version] + t + c + rest) == doc;
    assert doc == (m + [Version]) + t + (c + rest);
    UIntRoundTrip(typesLength % 0x1_0000_0000, m + [Version], c + rest);
    assert doc == (m + [Version] + t) + c + rest;
    UIntRoundTrip(contentLength % 0x1_0000_0000, m + [Version] + t, rest);
  }

  /** A frame is the header followed by the schema block and then the
      content block; its length is 11 plus both block lengths, and the
      length words read back as the block lengths (cast to 32 bits). */
  lemma FrameLayout(typesBuffer: seq<byte>, contentBuffer: seq<byte>)
    ensures var doc := Frame(typesBuffer, contentBuffer);
      var tl, cl := |typesBuffer|, |contentBuffer|;
      && |doc| == 11 + tl + cl
      && doc[..3] == [0xFA, 0x54, 1]
      && ParseUInt(doc, 3) == Ok((tl % 0x1_0000_0000, 7))
      && ParseUInt(doc, 7) == Ok((cl % 0x1_0000_0000, 11))
      && doc[11..11 + tl] == typesBuffer
      && doc[11 + tl..] == contentBuffer
  {
    var h := Header(|typesBuffer|, |contentBuffer|);
    HeaderLayout(|typesBuffer|, |contentBuffer|, typesBuffer + contentBuffer);
    Regroup(h, typesBuffer, contentBuffer);
    ThreeParts(h, typesBuffer, contentBuffer, 11);
  }

  /** The middle and last parts of a concatenation of three, cut at the
      length n of the first. */
  lemma ThreeParts(h: seq<byte>, a: seq<byte>, b: seq<byte>, n: nat)
    requires n == |h|
    ensures |h + a + b| == n + |a| + |b|
    ensures (h + a + b)[n..n + |a|] == a && (h + a + b)[n + |a|..] == b
  {
  }

  // ---------------------------------------------------------------------
  // The encoder as the source runs it: a compiler object that keeps the
  // visited set, and writers appended to in loops.

  class SchemaCompiler {
    const reg: Registry
    var visited: set<HostType>

    constructor (reg: Registry)
      ensures this.reg == reg && visited == {}
    {
      this.reg := reg;
      visited := {};
    }

    /** Depth first: an array defers to its item type; a custom type seen
        for the first time is marked, its property types are walked in
        order, and it is emitted after everything they discovered. */
    method AddTypes(t: HostType) returns (entries: seq<HostType>)
      requires RegistryComplete(reg) && Covers(reg, t)
      modifies this
      ensures (entries, visited) == Discover(reg, t, old(visited))
      decreases |reg.Keys - visited|, t
    {
      var predefinedId := PredefinedTypeId(t);
      if predefinedId == 5 {
        entries := AddTypes(ElementType(t));
        return;
      }
      if predefinedId >= 0 || t in visited {
        return [];
      }
      StrictlyFewerUnvisited(reg.Keys, visited, t);
      visited := visited + {t};
      var props := reg[t];
      entries := [];
      ghost var start := visited;
      for i := 0 to |props|
        invariant start <= visited
        invariant entries + DiscoverAll(reg, props[i..], visited).0 == DiscoverAll(reg, props, start).0
        invariant DiscoverAll(reg, props[i..], visited).1 == DiscoverAll(reg, props, start).1
      {
        FewerUnvisited(reg.Keys, start, visited);
        DiscoverAllStep(reg, props, i, visited);
        ghost var rest := DiscoverAll(reg, props[i + 1..], Discover(reg, props[i].ty, visited).1);
        var found := AddTypes(props[i].ty);
        Regroup(entries, found, rest.0);
        entries := entries + found;
      }
      WalkFinished(reg, props, entries, visited, DiscoverAll(reg, props, start));
      DiscoverNew(reg, t, old(visited));
      entries := entries + [t];
    }
  }

  /** Walking the properties from position i is walking property i and
      then the properties after it. */
  lemma DiscoverAllStep(reg: Registry, props: seq<Property>, i: nat, visited: set<HostType>)
    requires RegistryComplete(reg) && i < |props|
    requires forall j :: 0 <= j < |props| ==> Covers(reg, props[j].ty)
    ensures var (E1, V1) := Discover(reg, props[i].ty, visited);
      var (E2, V2) := DiscoverAll(reg, props[i + 1..], V1);
      DiscoverAll(reg, props[i..], visited) == (E1 + E2, V2)
  {
    assert props[i..][0] == props[i];
    assert props[i..][1..] == props[i + 1..];
  }

  /** Once every property is walked, the entries so far are the result. */
  lemma WalkFinished(reg: Registry, props: seq<Property>, entries: seq<HostType>, visited: set<HostType>,
                     target: (seq<HostType>, set<HostType>))
    requires RegistryComplete(reg)
    requires forall j :: 0 <= j < |props| ==> Covers(reg, props[j].ty)
    requires entries + DiscoverAll(reg, props[|props|..], visited).0 == target.0
    requires DiscoverAll(reg, props[|props|..], visited).1 == target.1
    ensures entries == target.0 && visited == target.1
  {
    assert props[|props|..] == [];
    assert entries + [] == entries;
  }

  /** A custom type seen for the first time yields its properties' entries
      followed by itself. */
  lemma DiscoverNew(reg: Registry, t: HostType, visited: set<HostType>)
    requires RegistryComplete(reg) && Covers(reg, t)
    requires PredefinedTypeId(t) == -1 && t !in visited
    ensures t in reg
    ensures Discover(reg, t, visited)
         == (DiscoverAll(reg, reg[t], visited + {t}).0 + [t], DiscoverAll(reg, reg[t], visited + {t}).1)
  {
  }

  method GetTypes(reg: Registry, t: HostType) returns (types: seq<HostType>)
    requires RegistryComplete(reg) && Covers(reg, t)
    ensures types == CompileTable(reg, t)
  {
    var compiler := new SchemaCompiler(reg);
    types := compiler.AddTypes(t);
  }

  /** One word per array layer, then the word of the type beneath. */
  method WriteTypeId(writer: Writer, t: HostType, customTypes: seq<HostType>)
    requires |customTypes| <= MaxEntries
    modifies writer
    ensures writer.bytes == old(writer.bytes) + WordsBytes(TypeIdWords(customTypes, t))
    decreases t
  {
    ghost var start := writer.bytes;
    var typeId := PredefinedTypeId(t);
    if typeId >= 0 {
      writer.WriteUInt(typeId);
      if typeId == 5 {
        ghost var mid := writer.bytes;
        WriteTypeId(writer, ElementType(t), customTypes);
        ArrayWordsWritten(customTypes, t, start, mid, writer.bytes);
      } else {
        TypeIdWordsSingle(customTypes, t);
      }
    } else {
      writer.WriteUInt(IndexOf(customTypes, t) + CustomBase);
      TypeIdWordsSingle(customTypes, t);
    }
  }

  lemma ArrayWordsWritten(types: seq<HostType>, t: HostType, start: seq<byte>, mid: seq<byte>, after: seq<byte>)
    requires |types| <= MaxEntries && PredefinedTypeId(t) == 5
    requires mid == start + EncodeUInt(ArrayCode)
    requires after == mid + WordsBytes(TypeIdWords(types, ElementType(t)))
    ensures after == start + WordsBytes(TypeIdWords(types, t))
  {
    TypeIdWordsArray(types, t);
    Regroup(start, EncodeUInt(ArrayCode), WordsBytes(TypeIdWords(types, ElementType(t))));
  }

  lemma TypeIdWordsArray(types: seq<HostType>, t: HostType)
    requires |types| <= MaxEntries && PredefinedTypeId(t) == 5
    ensures WordsBytes(TypeIdWords(types, t))
         == EncodeUInt(ArrayCode) + WordsBytes(TypeIdWords(types, ElementType(t)))
  {
    var ws := TypeIdWords(types, ElementType(t));
    assert TypeIdWords(types, t) == [ArrayCode] + ws;
    assert ([ArrayCode] + ws)[1..] == ws;
  }

  lemma TypeIdWordsSingle(types: seq<HostType>, t: HostType)
    requires |types| <= MaxEntries && PredefinedTypeId(t) != 5
    ensures var id := PredefinedTypeId(t);
      WordsBytes(TypeIdWords(types, t))
        == EncodeUInt(if id >= 0 then id else IndexOf(types, t) + CustomBase)
  {
    var id := PredefinedTypeId(t);
    var w := if id >= 0 then id else IndexOf(types, t) + CustomBase;
    assert TypeIdWords(types, t) == [w];
    assert [w][1..] == [];
  }

  lemma PropertiesStep(types: seq<HostType>, props: seq<Property>, j: nat,
                       start: seq<byte>, before: seq<byte>, after: seq<byte>)
    requires |types| <= MaxEntries && j < |props|
    requires before == start + PropertiesBytes(types, props[..j])
    requires after == before + PropertyBytes(types, props[j])
    ensures after == start + PropertiesBytes(types, props[..j + 1])
  {
    PropertiesSnoc(types, props, j);
    Regroup(start, PropertiesBytes(types, props[..j]), PropertyBytes(types, props[j]));
  }

  lemma PropertiesSnoc(types: seq<HostType>, props: seq<Property>, j: nat)
    requires |types| <= MaxEntries && j < |props|
    ensures PropertiesBytes(types, props[..j + 1])
         == PropertiesBytes(types, props[..j]) + PropertyBytes(types, props[j])
  {
    var s := props[..j + 1];
    assert |s| - 1 == j && s[..j] == props[..j] && s[j] == props[j];
  }

  /** One property: its name, then its type code. */
  method WriteProperty(writer: Writer, types: seq<HostType>, p: Property)
    requires |types| <= MaxEntries
    modifies writer
    ensures writer.bytes == old(writer.bytes) + PropertyBytes(types, p)
  {
    ghost var start := writer.bytes;
    writer.WriteString(p.name);
    WriteTypeId(writer, p.ty, types);
    Regroup(start, EncodeString(p.name), WordsBytes(TypeIdWords(types, p.ty)));
  }

  /** One entry: each property in order, then a closing 0 byte. */
  method WriteEntry(writer: Writer, reg: Registry, types: seq<HostType>, e: HostType)
    requires e in reg && |types| <= MaxEntries
    modifies writer
    ensures writer.bytes == old(writer.bytes) + EntryBytes(reg, types, e)
  {
    var props := reg[e];
    ghost var start := writer.bytes;
    for j := 0 to |props|
      invariant writer.bytes == start + PropertiesBytes(types, props[..j])
    {
      ghost var before := writer.bytes;
      WriteProperty(writer, types, props[j]);
      PropertiesStep(types, props, j, start, before, writer.bytes);
    }
    ghost var before := writer.bytes;
    writer.WriteByte(0);
    EntryEnd(reg, types, e, start, before, writer.bytes);
  }

  lemma EntryEnd(reg: Registry, types: seq<HostType>, e: HostType,
                 start: seq<byte>, before: seq<byte>, after: seq<byte>)
    requires e in reg && |types| <= MaxEntries
    requires before == start + PropertiesBytes(types, reg[e][..|reg[e]|])
    requires after == before + [0]
    ensures after == start + EntryBytes(reg, types, e)
  {
    assert reg[e][..|reg[e]|] == reg[e];
    Regroup(start, PropertiesBytes(types, reg[e]), [0 as byte]);
  }

  /** The entry count, then every entry in table order. */
  method SerializeTypes(reg: Registry, types: seq<HostType>) returns (buffer: seq<byte>)
    requires InRegistry(reg, types) && |types| <= MaxEntries
    ensures buffer == TypesBlock(reg, types)
  {
    var writer := new Writer();
    writer.WriteUInt(|types|);
    assert writer.bytes == EncodeUInt(|types|);
    WriteEntries(writer, reg, types);
    buffer := writer.bytes;
  }

  method WriteEntries(writer: Writer, reg: Registry, types: seq<HostType>)
    requires InRegistry(reg, types) && |types| <= MaxEntries
    modifies writer
    ensures writer.bytes == old(writer.bytes) + EntriesBytes(reg, types, types)
  {
    for k := 0 to |types|
      invariant writer.bytes == old(writer.bytes) + EntriesBytes(reg, types, types[..k])
    {
      ghost var before := writer.bytes;
      WriteEntry(writer, reg, types, types[k]);
      EntriesStep(reg, types, k, old(writer.bytes), before, writer.bytes);
    }
    EntriesAll(reg, types);
  }

  lemma EntriesStep(reg: Registry, types: seq<HostType>, k: nat, start: seq<byte>, before: seq<byte>, after: seq<byte>)
    requires InRegistry(reg, types) && |types| <= MaxEntries && k < |types|
    requires before == start + EntriesBytes(reg, types, types[..k])
    requires after == before + EntryBytes(reg, types, types[k])
    ensures after == start + EntriesBytes(reg, types, types[..k + 1])
  {
    EntriesSnoc(reg, types, k);
    Regroup(start, EntriesBytes(reg, types, types[..k]), EntryBytes(reg, types, types[k]));
  }

  lemma EntriesSnoc(reg: Registry, types: seq<HostType>, k: nat)
    requires InRegistry(reg, types) && |types| <= MaxEntries && k < |types|
    ensures EntriesBytes(reg, types, types[..k + 1])
         == EntriesBytes(reg, types, types[..k]) + EntryBytes(reg, types, types[k])
  {
    var s := types[..k + 1];
    assert |s| - 1 == k && s[..k] == types[..k] && s[k] == types[k];
  }

  lemma EntriesAll(reg: Registry, types: seq<HostType>)
    requires InRegistry(reg, types) && |types| <= MaxEntries
    ensures EntriesBytes(reg, types, types[..|types|]) == EntriesBytes(reg, types, types)
  {
    assert types[..|types|] == types;
  }

  /** The writer agrees with a byte specification: on success it appended
      exactly the specified bytes; otherwise it fails with the same error. */
  predicate Appended(r: Result<()>, bytes: seq<byte>, before: seq<byte>, spec: Result<seq<byte>>) {
    match spec
    case Ok(b) => r.Ok? && bytes == before + b
    case Err(e) => r == Err(e)
  }

  lemma {:induction false} ItemsErrorStays(reg: Registry, types: seq<HostType>, items: seq<HostValue>,
                                           elem: HostType, i: nat, n: nat)
    requires InRegistry(reg, types) && i <= n <= |items|
    requires EncodeItems(reg, types, items, elem, i).Err?
    ensures EncodeItems(reg, types, items, elem, n) == EncodeItems(reg, types, items, elem, i)
    decreases n
  {
    if n > i {
      ItemsErrorStays(reg, types, items, elem, i, n - 1);
    }
  }

  lemma {:induction false} FieldsErrorStays(reg: Registry, types: seq<HostType>, values: seq<HostValue>,
                                            props: seq<Property>, i: nat, n: nat)
    requires InRegistry(reg, types) && i <= n <= |values| && n <= |props|
    requires EncodeFields(reg, types, values, props, i).Err?
    ensures EncodeFields(reg, types, values, props, n) == EncodeFields(reg, types, values, props, i)
    decreases n
  {
    if n > i {
      FieldsErrorStays(reg, types, values, props, i, n - 1);
    }
  }

  /** Appending the next item's bytes extends the encoded prefix by one item. */
  lemma ItemsStep(reg: Registry, types: seq<HostType>, items: seq<HostValue>, elem: HostType, i: nat,
                  start: seq<byte>, before: seq<byte>, after: seq<byte>)
    requires InRegistry(reg, types) && i < |items|
    requires EncodeItems(reg, types, items, elem, i).Ok?
    requires before == start + EncodeItems(reg, types, items, elem, i).value
    requires Appended(Ok(()), after, before, EncodeContent(reg, types, items[i], elem))
    ensures EncodeItems(reg, types, items, elem, i + 1).Ok?
    ensures after == start + EncodeItems(reg, types, items, elem, i + 1).value
  {
  }

  lemma FieldsStep(reg: Registry, types: seq<HostType>, values: seq<HostValue>, props: seq<Property>, i: nat,
                   start: seq<byte>, before: seq<byte>, after: seq<byte>)
    requires InRegistry(reg, types) && i < |values| && i < |props|
    requires EncodeFields(reg, types, values, props, i).Ok?
    requires before == start + EncodeFields(reg, types, values, props, i).value
    requires Appended(Ok(()), after, before, EncodeContent(reg, types, values[i], props[i].ty))
    ensures EncodeFields(reg, types, values, props, i + 1).Ok?
    ensures after == start + EncodeFields(reg, types, values, props, i + 1).value
  {
  }

  method SerializeContentTo(writer: Writer, reg: Registry, types: seq<HostType>, obj: HostValue, t: HostType)
    returns (r: Result<()>)
    requires InRegistry(reg, types)
    modifies writer
    ensures Appended(r, writer.bytes, old(writer.bytes), EncodeContent(reg, types, obj, t))
    decreases obj, 1
  {
    if obj.Null? {
      writer.WriteByte(0);
      return Ok(());
    }
    var typeId := PredefinedTypeId(t);
    if typeId >= 0 {
      if typeId == 1 {
        if !obj.BoolV? { return Err(UnsupportedValue); }
        writer.WriteBool(obj.b);
      } else if typeId == 2 {
        if !obj.IntV? { return Err(UnsupportedValue); }
        writer.WriteInt(obj.i);
      } else if typeId == 3 {
        if !obj.DoubleV? { return Err(UnsupportedValue); }
        writer.WriteULong(obj.bits);
      } else if typeId == 4 {
        if !obj.StrV? { return Err(UnsupportedValue); }
        writer.WriteString(obj.s);
      } else if typeId == 5 {
        if !obj.ArrayV? { return Err(UnsupportedValue); }
        var arr := obj.items;
        if t.NativeArray? {
          ghost var start := writer.bytes;
          writer.WriteUInt(|arr| % 0x1_0000_0000);
          ghost var mid := writer.bytes;
          r := WriteItems(writer, reg, types, obj, ElementType(t));
          ArrayAppended(r, start, mid, writer.bytes, EncodeUInt(|arr| % 0x1_0000_0000),
                        EncodeItems(reg, types, arr, ElementType(t), |arr|));
          return r;
        } else if arr != [] {
          return Err(UnsupportedValue);
        }
      }
      return Ok(());
    }
    if t !in types {
      return Err(CustomTypeNotFound);
    }
    var props := reg[t];
    if !obj.ObjectV? || |obj.values| != |props| {
      return Err(UnsupportedValue);
    }
    r := WriteFields(writer, reg, types, obj, props);
  }

  /** The items of a native array, each under the item type, in order;
      the first failure stops the loop. */
  method WriteItems(writer: Writer, reg: Registry, types: seq<HostType>, obj: HostValue, itemType: HostType)
    returns (r: Result<()>)
    requires InRegistry(reg, types) && obj.ArrayV?
    modifies writer
    ensures Appended(r, writer.bytes, old(writer.bytes), EncodeItems(reg, types, obj.items, itemType, |obj.items|))
    decreases obj, 0
  {
    var arr := obj.items;
    ghost var start := writer.bytes;
    for i := 0 to |arr|
      invariant EncodeItems(reg, types, arr, itemType, i).Ok?
      invariant writer.bytes == start + EncodeItems(reg, types, arr, itemType, i).value
    {
      ghost var before := writer.bytes;
      var item := SerializeContentTo(writer, reg, types, arr[i], itemType);
      if item.Err? {
        ItemsErrorStays(reg, types, arr, itemType, i + 1, |arr|);
        return item;
      }
      ItemsStep(reg, types, arr, itemType, i, start, before, writer.bytes);
    }
    r := Ok(());
  }

  /** The values of a custom object, each under its property's type, in
      the entry's order; the first failure stops the loop. */
  method WriteFields(writer: Writer, reg: Registry, types: seq<HostType>, obj: HostValue, props: seq<Property>)
    returns (r: Result<()>)
    requires InRegistry(reg, types) && obj.ObjectV? && |obj.values| == |props|
    modifies writer
    ensures Appended(r, writer.bytes, old(writer.bytes), EncodeFields(reg, types, obj.values, props, |props|))
    decreases obj, 0
  {
    ghost var start := writer.bytes;
    for i := 0 to |props|
      invariant EncodeFields(reg, types, obj.values, props, i).Ok?
      invariant writer.bytes == start + EncodeFields(reg, types, obj.values, props, i).value
    {
      ghost var before := writer.bytes;
      var field := SerializeContentTo(writer, reg, types, obj.values[i], props[i].ty);
      if field.Err? {
        FieldsErrorStays(reg, types, obj.values, props, i + 1, |props|);
        return field;
      }
      FieldsStep(reg, types, obj.values, props, i, start, before, writer.bytes);
    }
    r := Ok(());
  }

  lemma ArrayAppended(r: Result<()>, start: seq<byte>, mid: seq<byte>, bytes: seq<byte>,
                      len: seq<byte>, items: Result<seq<byte>>)
    requires mid == start + len && Appended(r, bytes, mid, items)
    ensures Appended(r, bytes, start, match items case Ok(body) => Ok(len + body) case Err(e) => Err(e))
  {
    if items.Ok? {
      Regroup(start, len, items.value);
    }
  }

  method SerializeContent(reg: Registry, types: seq<HostType>, obj: HostValue, t: HostType)
    returns (r: Result<seq<byte>>)
    requires InRegistry(reg, types)
    ensures r == EncodeContent(reg, types, obj, t)
  {
    var writer := new Writer();
    var written := SerializeContentTo(writer, reg, types, obj, t);
    if written.Err? {
      return Err(written.error);
    }
    AppendedToEmpty(written, writer.bytes, EncodeContent(reg, types, obj, t));
    r := Ok(writer.bytes);
  }

  lemma AppendedToEmpty(r: Result<()>, bytes: seq<byte>, spec: Result<seq<byte>>)
    requires Appended(r, bytes, [], spec) && r.Ok?
    ensures spec == Ok(bytes)
  {
    match spec
    case Ok(b) =>
      assert [] + b == b;
    case Err(_) =>
  }

  /** Magic and version first, then the two block lengths, then the blocks. */
  method Serialize(reg: Registry, obj: HostValue, t: HostType) returns (r: Result<seq<byte>>)
    requires RegistryComplete(reg) && Covers(reg, t) && |reg| <= MaxEntries
    ensures r == Document(reg, obj, t)
  {
    var writer := new Writer();
    writer.WriteUShort(Magic);
    writer.WriteByte(Version);
    var types := GetTypes(reg, t);
    var typesBuffer := SerializeTypes(reg, types);
    var contentBuffer := SerializeContent(reg, types, obj, t);
    if contentBuffer.Err? {
      return Err(contentBuffer.error);
    }
    WriteBlocks(writer, typesBuffer, contentBuffer.value);
    r := Ok(writer.bytes);
  }

  /** After magic and version: the two block lengths, then the blocks. */
  method WriteBlocks(writer: Writer, typesBuffer: seq<byte>, contentBuffer: seq<byte>)
    requires writer.bytes == [] + EncodeUShort(Magic) + [Version]
    modifies writer
    ensures writer.bytes == Frame(typesBuffer, contentBuffer)
  {
    writer.WriteUInt(|typesBuffer| % 0x1_0000_0000);
    writer.WriteUInt(|contentBuffer| % 0x1_0000_0000);
    writer.WriteBytes(typesBuffer);
    writer.WriteBytes(contentBuffer);
    FrameWritten(typesBuffer, contentBuffer, writer.bytes);
  }

  lemma FrameWritten(typesBuffer: seq<byte>, contentBuffer: seq<byte>, bytes: seq<byte>)
    requires bytes == [] + EncodeUShort(Magic) + [Version]
      + EncodeUInt(|typesBuffer| % 0x1_0000_0000) + EncodeUInt(|contentBuffer| % 0x1_0000_0000)
      + typesBuffer + contentBuffer
    ensures bytes == Frame(typesBuffer, contentBuffer)
  {
    assert [] + EncodeUShort(Magic) == EncodeUShort(Magic);
  }
}
