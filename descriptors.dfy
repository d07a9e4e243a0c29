/** Schema descriptors handed to the code generator: the already-parsed tree of
    messages, fields and enums of a .proto file, plus the pure bookkeeping about
    which nested types become nested messages and which names a parse registers. */
module Descriptors {

  /** How the generated code decides whether a field is present. */
  datatype ConditionalKind = Always | NonDefault | FieldPresence

  /** Whether a field holds one value, an ordered list, or a keyed collection. */
  datatype RepeatedKind = Single | List | Dictionary

  /** The declared type of a field: a scalar kind, or the fully-qualified name of a
      message, enum or map-entry type that the registry may or may not know yet. */
  datatype TypeName = Scalar(kind: string) | Named(fullyQualifiedName: string)

  /** A field descriptor, with the repetition and presence kinds the field parser reads from it. */
  datatype FieldDescriptorProto = FieldDescriptorProto(
    name: string,
    number: int,
    typeName: TypeName,
    repeated: RepeatedKind,
    conditional: ConditionalKind)

  datatype EnumValueDescriptorProto = EnumValueDescriptorProto(name: string, number: int)

  datatype EnumDescriptorProto = EnumDescriptorProto(
    name: string,
    fullyQualifiedName: string,
    values: seq<EnumValueDescriptorProto>)

  /** A message descriptor: schema name, fully-qualified name, and its children in declaration order. */
  datatype DescriptorProto = DescriptorProto(
    name: string,
    fullyQualifiedName: string,
    fields: seq<FieldDescriptorProto>,
    nestedTypes: seq<DescriptorProto>,
    enumTypes: seq<EnumDescriptorProto>)

  function Elems<T>(s: seq<T>): set<T>
  {
    set x | x in s
  }

  lemma ElemsAppend<T>(a: seq<T>, b: seq<T>)
    ensures Elems(a + b) == Elems(a) + Elems(b)
  {
  }

  // ---------------------------------------------------------------------------
  // Nested types kept as nested messages

  /** How many of the first n nested types the map-entry test rejects. Each
      rejected type becomes the next nested message, so this is also the
      position at which the n-th nested type's message is appended. */
  function KeptCount(ds: seq<DescriptorProto>, isMapEntry: DescriptorProto -> bool, n: nat): (r: nat)
    requires n <= |ds|
    ensures r <= n
  {
    if n == 0 then 0 else KeptCount(ds, isMapEntry, n - 1) + (if isMapEntry(ds[n - 1]) then 0 else 1)
  }

  /** Some nested type is kept exactly when one of them is not a map entry. */
  lemma {:induction false} KeptCountPositive(ds: seq<DescriptorProto>, isMapEntry: DescriptorProto -> bool, n: nat)
    requires n <= |ds|
    ensures KeptCount(ds, isMapEntry, n) > 0 <==> exists i :: 0 <= i < n && !isMapEntry(ds[i])
  {
    if n > 0 {
      KeptCountPositive(ds, isMapEntry, n - 1);
      if !isMapEntry(ds[n - 1]) {
        assert 0 <= n - 1 < n && !isMapEntry(ds[n - 1]);
      }
    }
  }

  /** Positions never decrease along the nested types, and grow past every kept one. */
  lemma {:induction false} KeptCountGrow(ds: seq<DescriptorProto>, isMapEntry: DescriptorProto -> bool, i: nat, j: nat)
    requires i < j <= |ds|
    ensures KeptCount(ds, isMapEntry, i) <= KeptCount(ds, isMapEntry, j)
    ensures !isMapEntry(ds[i]) ==> KeptCount(ds, isMapEntry, i) < KeptCount(ds, isMapEntry, j)
    decreases j
  {
    if i < j - 1 {
      KeptCountGrow(ds, isMapEntry, i, j - 1);
    }
  }

  /** Two kept nested types get distinct positions, in declaration order. */
  lemma KeptPositionsIncrease(ds: seq<DescriptorProto>, isMapEntry: DescriptorProto -> bool, i: nat, j: nat)
    requires i < j < |ds| && !isMapEntry(ds[i])
    ensures KeptCount(ds, isMapEntry, i) < KeptCount(ds, isMapEntry, j)
  {
    KeptCountGrow(ds, isMapEntry, i, j);
  }

  /** Every position below the number of kept types belongs to a kept type. */
  lemma {:induction false} KeptPositionsCover(ds: seq<DescriptorProto>, isMapEntry: DescriptorProto -> bool, n: nat, k: nat)
    requires n <= |ds| && k < KeptCount(ds, isMapEntry, n)
    ensures exists i :: 0 <= i < n && !isMapEntry(ds[i]) && KeptCount(ds, isMapEntry, i) == k
  {
    if k < KeptCount(ds, isMapEntry, n - 1) {
      KeptPositionsCover(ds, isMapEntry, n - 1, k);
    } else {
      assert !isMapEntry(ds[n - 1]) && KeptCount(ds, isMapEntry, n - 1) == k;
    }
  }

  // ---------------------------------------------------------------------------
  // Names a parse registers

  /** The fully-qualified names that parsing `d` registers, in registration order:
      the message itself, then for each nested type either its map-entry name or
      (recursively) its own names, then its enums. */
  function Names(d: DescriptorProto, isMapEntry: DescriptorProto -> bool): seq<string>
    decreases d, |d.nestedTypes| + 1
  {
    [d.fullyQualifiedName] + NestedNames(d, isMapEntry, |d.nestedTypes|) + EnumNames(d.enumTypes)
  }

  /** The names registered while handling the first n nested types of `d`. */
  function NestedNames(d: DescriptorProto, isMapEntry: DescriptorProto -> bool, n: nat): seq<string>
    requires n <= |d.nestedTypes|
    decreases d, n
  {
    if n == 0 then []
    else NestedNames(d, isMapEntry, n - 1) + ItemNames(d.nestedTypes[n - 1], isMapEntry)
  }

  /** The names registered for one nested type: a map entry is registered as itself. */
  function ItemNames(t: DescriptorProto, isMapEntry: DescriptorProto -> bool): seq<string>
    decreases t, |t.nestedTypes| + 2
  {
    if isMapEntry(t) then [t.fullyQualifiedName] else Names(t, isMapEntry)
  }

  /** Handling one more nested type adds its names to those registered so far. */
  lemma NestedNamesStep(d: DescriptorProto, isMapEntry: DescriptorProto -> bool, i: nat, taken: set<string>)
    requires i < |d.nestedTypes|
    ensures taken + Elems(NestedNames(d, isMapEntry, i + 1))
         == taken + Elems(NestedNames(d, isMapEntry, i)) + Elems(ItemNames(d.nestedTypes[i], isMapEntry))
  {
    ElemsAppend(NestedNames(d, isMapEntry, i), ItemNames(d.nestedTypes[i], isMapEntry));
  }

  /** An earlier nested type's own name is registered before a later one is handled. */
  lemma {:induction false} EarlierNestedName(d: DescriptorProto, isMapEntry: DescriptorProto -> bool, i: nat, n: nat)
    requires i < n <= |d.nestedTypes|
    ensures d.nestedTypes[i].fullyQualifiedName in Elems(NestedNames(d, isMapEntry, n))
    decreases n
  {
    ElemsAppend(NestedNames(d, isMapEntry, n - 1), ItemNames(d.nestedTypes[n - 1], isMapEntry));
    if i < n - 1 {
      EarlierNestedName(d, isMapEntry, i, n - 1);
    } else {
      var t := d.nestedTypes[i];
      assert t.fullyQualifiedName in ItemNames(t, isMapEntry) by {
        if !isMapEntry(t) {
          assert Names(t, isMapEntry)[0] == t.fullyQualifiedName;
        }
      }
    }
  }

  function EnumNames(es: seq<EnumDescriptorProto>): seq<string>
  {
    seq(|es|, k requires 0 <= k < |es| => es[k].fullyQualifiedName)
  }

  /** Everything a parse of `d` registers on top of `taken`: its own name, then
      the names from its nested types, then its enums' names. */
  lemma RegisteredNames(d: DescriptorProto, isMapEntry: DescriptorProto -> bool, taken: set<string>)
    ensures taken + Elems(Names(d, isMapEntry))
         == taken + {d.fullyQualifiedName} + Elems(NestedNames(d, isMapEntry, |d.nestedTypes|)) + Elems(EnumNames(d.enumTypes))
  {
    var head := [d.fullyQualifiedName];
    ElemsAppend(head + NestedNames(d, isMapEntry, |d.nestedTypes|), EnumNames(d.enumTypes));
    ElemsAppend(head, NestedNames(d, isMapEntry, |d.nestedTypes|));
    assert Elems(head) == {d.fullyQualifiedName};
  }

  /** `ns` can be registered one after another on top of `taken` without a duplicate. */
  predicate FreshNames(ns: seq<string>, taken: set<string>)
  {
    && (forall i :: 0 <= i < |ns| ==> ns[i] !in taken)
    && (forall i, j :: 0 <= i < j < |ns| ==> ns[i] != ns[j])
  }

  /** Registering `a + b` is duplicate-free exactly when `a` is, and `b` is on top of `a`. */
  lemma FreshNamesAppend(a: seq<string>, b: seq<string>, taken: set<string>)
    ensures FreshNames(a + b, taken) <==> FreshNames(a, taken) && FreshNames(b, taken + Elems(a))
  {
    if FreshNames(a, taken) && FreshNames(b, taken + Elems(a)) {
      forall i, j | 0 <= i < j < |a + b| ensures (a + b)[i] != (a + b)[j] {
        if j >= |a| && i < |a| {
          assert (a + b)[i] in Elems(a);
        }
      }
    }
    if FreshNames(a + b, taken) {
      forall i | 0 <= i < |a| ensures a[i] !in taken {
        assert a[i] == (a + b)[i];
      }
      forall i, j | 0 <= i < j < |a| ensures a[i] != a[j] {
        assert a[i] == (a + b)[i] && a[j] == (a + b)[j];
      }
      forall i | 0 <= i < |b| ensures b[i] !in taken + Elems(a) {
        assert b[i] == (a + b)[|a| + i];
        forall k | 0 <= k < |a| ensures a[k] != b[i] {
          assert a[k] == (a + b)[k];
        }
      }
      forall i, j | 0 <= i < j < |b| ensures b[i] != b[j] {
        assert b[i] == (a + b)[|a| + i] && b[j] == (a + b)[|a| + j];
      }
    }
  }

  /** The k-th name of a fresh list is fresh on top of `taken` and the names before it. */
  lemma FreshNamesAt(ns: seq<string>, taken: set<string>, k: nat)
    requires FreshNames(ns, taken) && k < |ns|
    ensures ns[k] !in taken + Elems(ns[..k])
  {
  }

  /** The names of the i-th nested type are fresh on top of `taken` and the names
      of the nested types before it. */
  lemma {:induction false} NestedItemFresh(d: DescriptorProto, isMapEntry: DescriptorProto -> bool, n: nat, i: nat, taken: set<string>)
    requires i < n <= |d.nestedTypes|
    requires FreshNames(NestedNames(d, isMapEntry, n), taken)
    ensures FreshNames(ItemNames(d.nestedTypes[i], isMapEntry), taken + Elems(NestedNames(d, isMapEntry, i)))
    decreases n
  {
    var before := NestedNames(d, isMapEntry, n - 1);
    FreshNamesAppend(before, ItemNames(d.nestedTypes[n - 1], isMapEntry), taken);
    if i < n - 1 {
      NestedItemFresh(d, isMapEntry, n - 1, i, taken);
    }
  }

  /** Splits the freshness of everything `d` registers into its three parts. */
  lemma NamesFresh(d: DescriptorProto, isMapEntry: DescriptorProto -> bool, taken: set<string>)
    requires FreshNames(Names(d, isMapEntry), taken)
    ensures d.fullyQualifiedName !in taken
    ensures FreshNames(NestedNames(d, isMapEntry, |d.nestedTypes|), taken + {d.fullyQualifiedName})
    ensures FreshNames(EnumNames(d.enumTypes),
                       taken + {d.fullyQualifiedName} + Elems(NestedNames(d, isMapEntry, |d.nestedTypes|)))
  {
    var head := [d.fullyQualifiedName];
    var nested := NestedNames(d, isMapEntry, |d.nestedTypes|);
    FreshNamesAppend(head + nested, EnumNames(d.enumTypes), taken);
    FreshNamesAppend(head, nested, taken);
    assert Elems(head) == {d.fullyQualifiedName};
    ElemsAppend(head, nested);
    assert head[0] == d.fullyQualifiedName;
  }
}
