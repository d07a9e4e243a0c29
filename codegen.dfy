/** The language-neutral message model of the code generator: a message node
    built from a message descriptor by recursive descent (Parse), and a second
    pass (FixupPlaceholders) that resolves deferred field types, hands out
    presence-tracking slots and turns map fields into dictionaries. */
module CodeGen {
  import opened Descriptors
  import opened Wrappers
  import Presence

  datatype Access = Public | Internal

  /** The naming policy consulted once per descriptor. Its rules belong to the
      caller; the model only records which descriptor each name came from. */
  datatype NameNormalizer = NameNormalizer(
    messageName: DescriptorProto -> string,
    enumName: EnumDescriptorProto -> string,
    fieldName: FieldDescriptorProto -> string)

  /** The type a field refers to. `Placeholder` names a type that was not yet
      registered when the field was parsed. */
  datatype TypeRef =
    | ScalarType(kind: string)
    | Placeholder(fullyQualifiedName: string)
    | MessageType(message: Message)
    | EnumType(definition: CodeGenEnum)
    | MapEntryType(fullyQualifiedName: string)

  /** A nested enum node; it does not change after it is built. */
  datatype CodeGenEnum = CodeGenEnum(
    name: string,
    originalName: string,
    package: string,
    fullyQualifiedPrefix: string,
    values: seq<EnumValueDescriptorProto>)

  /** The type a field parser gives a declared type: the registered node when the
      name is already known, a placeholder otherwise. */
  function ResolveName(t: TypeName, registry: map<string, TypeRef>): TypeRef
  {
    match t
    case Scalar(k) => ScalarType(k)
    case Named(n) => if n in registry then registry[n] else Placeholder(n)
  }

  /** A field of this type can signal absence through a null reference: it is a
      message that is not a value type. */
  predicate UsesNullForPresence(t: TypeRef)
    reads if t.MessageType? then {t.message} else {}
  {
    t.MessageType? && !t.message.isValueType
  }

  /** White space as .NET's char.IsWhiteSpace defines it. */
  predicate IsWhiteSpace(c: char)
  {
    || '\U{9}' <= c <= '\U{D}'
    || c == '\U{20}' || c == '\U{85}' || c == '\U{A0}' || c == '\U{1680}'
    || '\U{2000}' <= c <= '\U{200A}'
    || c == '\U{2028}' || c == '\U{2029}' || c == '\U{202F}' || c == '\U{205F}' || c == '\U{3000}'
  }

  predicate IsNullOrWhiteSpace(s: string)
  {
    forall i :: 0 <= i < |s| ==> IsWhiteSpace(s[i])
  }

  // ---------------------------------------------------------------------------
  // Parse context

  /** The state shared by all parses of one compilation: the naming policy, the
      map-entry test, and the registry from fully-qualified name to node. */
  class ParseContext {
    const nameNormalizer: NameNormalizer
    const isMapEntry: DescriptorProto -> bool
    var registry: map<string, TypeRef>

    /** The registry only ever holds real nodes. */
    ghost predicate Valid()
      reads this
    {
      forall n :: n in registry ==> !registry[n].Placeholder?
    }

    constructor (nameNormalizer: NameNormalizer, isMapEntry: DescriptorProto -> bool)
      ensures this.nameNormalizer == nameNormalizer && this.isMapEntry == isMapEntry
      ensures registry == map[] && Valid()
    {
      this.nameNormalizer := nameNormalizer;
      this.isMapEntry := isMapEntry;
      registry := map[];
    }

    /** Records a new node under a name not registered before. */
    method Register(fullyQualifiedName: string, node: TypeRef)
      requires Valid() && !node.Placeholder?
      requires fullyQualifiedName !in registry
      modifies this
      ensures Valid()
      ensures registry == old(registry)[fullyQualifiedName := node]
    {
      registry := registry[fullyQualifiedName := node];
    }

    /** Tests a nested type for being a synthesized map entry; a map entry is
        recorded under its own name so that the fields using it resolve to it. */
    method AddMapEntry(d: DescriptorProto) returns (isEntry: bool)
      requires Valid()
      requires isMapEntry(d) ==> d.fullyQualifiedName !in registry
      modifies this
      ensures Valid()
      ensures isEntry == isMapEntry(d)
      ensures registry == if isEntry then old(registry)[d.fullyQualifiedName := MapEntryType(d.fullyQualifiedName)]
                          else old(registry)
    {
      isEntry := isMapEntry(d);
      if isEntry {
        registry := registry[d.fullyQualifiedName := MapEntryType(d.fullyQualifiedName)];
      }
    }

    /** Looks a placeholder up in the registry; reports whether it was replaced. */
    function FixupPlaceholder(t: TypeRef): (r: (bool, TypeRef))
      reads this
      ensures r.0 <==> t.Placeholder? && t.fullyQualifiedName in registry
      ensures !r.0 ==> r.1 == t
      ensures r.0 ==> r.1 == registry[t.fullyQualifiedName]
      ensures Valid() ==> (r.1.Placeholder? <==> t.Placeholder? && t.fullyQualifiedName !in registry)
    {
      if t.Placeholder? && t.fullyQualifiedName in registry then (true, registry[t.fullyQualifiedName])
      else (false, t)
    }
  }

  // ---------------------------------------------------------------------------
  // Fields and enums

  class Field {
    const name: string
    const originalName: string
    const number: int
    var fieldType: TypeRef
    var conditional: ConditionalKind
    var fieldPresenceIndex: Option<nat>
    var repeated: RepeatedKind

    predicate IsRepeated()
      reads this
    {
      repeated != Single
    }

    constructor (name: string, originalName: string, number: int, fieldType: TypeRef,
                 repeated: RepeatedKind, conditional: ConditionalKind)
      ensures this.name == name && this.originalName == originalName && this.number == number
      ensures this.fieldType == fieldType && this.repeated == repeated && this.conditional == conditional
      ensures fieldPresenceIndex == None
    {
      this.name := name;
      this.originalName := originalName;
      this.number := number;
      this.fieldType := fieldType;
      this.repeated := repeated;
      this.conditional := conditional;
      fieldPresenceIndex := None;
    }

    /** Builds a field node from its descriptor, resolving its type against what
        the registry holds at this moment. */
    static method Parse(fd: FieldDescriptorProto, ctx: ParseContext) returns (f: Field)
      ensures fresh(f)
      ensures FieldFrom(f, fd, ctx)
      ensures f.fieldType == ResolveName(fd.typeName, ctx.registry)
    {
      f := new Field(ctx.nameNormalizer.fieldName(fd), fd.name, fd.number,
                     ResolveName(fd.typeName, ctx.registry), fd.repeated, fd.conditional);
    }
  }

  /** A field node as parsed from `fd`, apart from its type. */
  ghost predicate FieldFrom(f: Field, fd: FieldDescriptorProto, ctx: ParseContext)
    reads f
  {
    && f.name == ctx.nameNormalizer.fieldName(fd)
    && f.originalName == fd.name
    && f.number == fd.number
    && f.repeated == fd.repeated
    && f.conditional == fd.conditional
    && f.fieldPresenceIndex == None
  }

  /** The type of a parsed field, judged against a later registry, when `known`
      were the names registered as the field was parsed: a scalar stays a
      scalar; a name registered by then is the node registered under it, which
      the registry keeps; any other name is still a placeholder. */
  ghost predicate TypeFrom(t: TypeRef, n: TypeName, known: set<string>, registry: map<string, TypeRef>)
  {
    match n
    case Scalar(k) => t == ScalarType(k)
    case Named(q) => if q in known then q in registry && t == registry[q] else t == Placeholder(q)
  }

  ghost predicate EnumFrom(e: CodeGenEnum, d: EnumDescriptorProto, prefix: string, package: string, ctx: ParseContext)
  {
    && e.name == ctx.nameNormalizer.enumName(d)
    && e.originalName == d.name
    && e.package == package
    && e.fullyQualifiedPrefix == prefix
    && e.values == d.values
  }

  /** Builds an enum node and registers it under the descriptor's name. */
  method ParseEnum(d: EnumDescriptorProto, prefix: string, ctx: ParseContext, package: string) returns (e: CodeGenEnum)
    requires ctx.Valid()
    requires d.fullyQualifiedName !in ctx.registry
    modifies ctx
    ensures ctx.Valid()
    ensures EnumFrom(e, d, prefix, package, ctx)
    ensures ctx.registry == old(ctx.registry)[d.fullyQualifiedName := EnumType(e)]
  {
    e := CodeGenEnum(ctx.nameNormalizer.enumName(d), d.name, package, prefix, d.values);
    ctx.Register(d.fullyQualifiedName, EnumType(e));
  }

  /** `r2` keeps every registration of `r1`: registrations are never overwritten. */
  ghost predicate Extends(r1: map<string, TypeRef>, r2: map<string, TypeRef>)
  {
    forall n :: n in r1 ==> n in r2 && r2[n] == r1[n]
  }

  lemma ExtendsTrans(r1: map<string, TypeRef>, r2: map<string, TypeRef>, r3: map<string, TypeRef>)
    requires Extends(r1, r2) && Extends(r2, r3)
    ensures Extends(r1, r3)
  {
  }

  /** Every map-entry type among the first n nested types of `d` is recorded as a map-entry node. */
  ghost predicate MapEntriesRecorded(d: DescriptorProto, n: nat, ctx: ParseContext, registry: map<string, TypeRef>)
    requires n <= |d.nestedTypes|
  {
    forall i :: 0 <= i < n && ctx.isMapEntry(d.nestedTypes[i]) ==>
      && d.nestedTypes[i].fullyQualifiedName in registry
      && registry[d.nestedTypes[i].fullyQualifiedName] == MapEntryType(d.nestedTypes[i].fullyQualifiedName)
  }

  /** Map entries recorded so far stay recorded as the registry grows, and the
      next nested type's entry, once recorded, extends the range by one. */
  lemma MapEntriesStep(d: DescriptorProto, i: nat, ctx: ParseContext, r1: map<string, TypeRef>, r2: map<string, TypeRef>)
    requires i < |d.nestedTypes|
    requires MapEntriesRecorded(d, i, ctx, r1) && Extends(r1, r2)
    requires ctx.isMapEntry(d.nestedTypes[i]) ==>
      && d.nestedTypes[i].fullyQualifiedName in r2
      && r2[d.nestedTypes[i].fullyQualifiedName] == MapEntryType(d.nestedTypes[i].fullyQualifiedName)
    ensures MapEntriesRecorded(d, i + 1, ctx, r2)
  {
  }

  ghost function FieldSet(fs: seq<Field>): set<object>
  {
    set f | f in fs
  }

  /** The message nodes that the fields' types refer to. */
  ghost function TypeTargets(fs: seq<Field>): set<object>
    reads FieldSet(fs)
  {
    set f | f in fs && f.fieldType.MessageType? :: f.fieldType.message
  }

  /** A snapshot of the fields' states, taken once before the second pass. */
  ghost function StatesOf(fs: seq<Field>): (r: seq<FieldState>)
    reads FieldSet(fs), TypeTargets(fs)
    ensures |r| == |fs|
    ensures forall i :: 0 <= i < |fs| ==> r[i] == StateOf(fs[i])
  {
    seq(|fs|, i reads FieldSet(fs), TypeTargets(fs) requires 0 <= i < |fs| => StateOf(fs[i]))
  }

  /** The values of a field node that the second pass may change, and whether
      its type signals absence by null (which the pass consults). */
  datatype FieldState = FieldState(
    fieldType: TypeRef,
    conditional: ConditionalKind,
    fieldPresenceIndex: Option<nat>,
    repeated: RepeatedKind,
    usesNull: bool)

  ghost function StateOf(f: Field): FieldState
    reads f, if f.fieldType.MessageType? then {f.fieldType.message} else {}
  {
    FieldState(f.fieldType, f.conditional, f.fieldPresenceIndex, f.repeated, UsesNullForPresence(f.fieldType))
  }

  /** What the second pass makes of one field that was in state `before`: its
      type is looked up if it was a placeholder; a presence-tracking field whose
      (new) type signals absence by null is demoted to Always, and any other
      presence-tracking field receives `slot`; a repeated field of map-entry type
      becomes a dictionary. */
  ghost predicate FixedUp(after: FieldState, before: FieldState, registry: map<string, TypeRef>, slot: nat)
  {
    && after.fieldType == (if before.fieldType.Placeholder? && before.fieldType.fullyQualifiedName in registry
                           then registry[before.fieldType.fullyQualifiedName] else before.fieldType)
    && after.conditional == (if before.conditional == FieldPresence && after.usesNull then Always else before.conditional)
    && after.fieldPresenceIndex == (if after.conditional == FieldPresence then Some(slot) else before.fieldPresenceIndex)
    && after.repeated == (if before.repeated != Single && after.fieldType.MapEntryType? then Dictionary else before.repeated)
  }

  function Conditionals(ss: seq<FieldState>): seq<ConditionalKind>
  {
    seq(|ss|, j requires 0 <= j < |ss| => ss[j].conditional)
  }

  function PresenceIndices(ss: seq<FieldState>): seq<Option<nat>>
  {
    seq(|ss|, j requires 0 <= j < |ss| => ss[j].fieldPresenceIndex)
  }

  /** Taking the presence kinds commutes with appending a field state. */
  lemma ConditionalsAppend(ss: seq<FieldState>, s: FieldState)
    ensures Conditionals(ss + [s]) == Conditionals(ss) + [s.conditional]
  {
    assert forall j :: 0 <= j < |ss| ==> Conditionals(ss + [s])[j] == Conditionals(ss)[j];
  }

  /** The first |after| fields, which were in the states `before`, are fixed up,
      each taking as its slot the number of presence-tracking fields before it. */
  ghost predicate FixedUpAll(after: seq<FieldState>, before: seq<FieldState>, registry: map<string, TypeRef>)
    decreases |after|
  {
    && |after| <= |before|
    && (|after| > 0 ==>
          var n := |after| - 1;
          && FixedUpAll(after[..n], before, registry)
          && FixedUp(after[n], before[n], registry, Presence.Slots(Conditionals(after[..n]))))
  }

  /** Fixing up the next field extends the fixed-up prefix. */
  lemma FixedUpAllAppend(after: seq<FieldState>, before: seq<FieldState>, registry: map<string, TypeRef>, s: FieldState)
    requires FixedUpAll(after, before, registry) && |after| < |before|
    requires FixedUp(s, before[|after|], registry, Presence.Slots(Conditionals(after)))
    ensures FixedUpAll(after + [s], before, registry)
  {
    assert (after + [s])[..|after|] == after;
  }

  /** Each field of a fixed-up prefix is fixed up with the slot counted over the fields before it. */
  lemma {:induction false} FixedUpAllAt(after: seq<FieldState>, before: seq<FieldState>, registry: map<string, TypeRef>, j: nat)
    requires FixedUpAll(after, before, registry) && j < |after|
    ensures FixedUp(after[j], before[j], registry, Presence.Slots(Conditionals(after)[..j]))
    decreases |after|
  {
    var n := |after| - 1;
    assert Conditionals(after[..n])[..j] == Conditionals(after)[..j];
    if j < n {
      FixedUpAllAt(after[..n], before, registry, j);
    } else {
      assert Conditionals(after[..n]) == Conditionals(after)[..j];
    }
  }

  // ---------------------------------------------------------------------------
  // Messages

  class Message {
    var name: string
    var originalName: string
    var package: string
    var isDeprecated: bool
    var isValueType: bool
    var access: Access
    const fullyQualifiedPrefix: string
    var messages: seq<Message>
    var enums: seq<CodeGenEnum>
    var fields: seq<Field>
    /** This node, its fields and (recursively) its nested message nodes. */
    ghost var repr: set<object>

    /** A new message keeps its given name as its original name until told otherwise. */
    constructor (name: string, fullyQualifiedPrefix: string)
      ensures this.name == name && originalName == name && this.fullyQualifiedPrefix == fullyQualifiedPrefix
      ensures package == "" && !isDeprecated && !isValueType && access == Public
      ensures messages == [] && enums == [] && fields == []
      ensures repr == {this}
      ensures !ShouldSerializeOriginalName() && !ShouldSerializePackage()
    {
      this.name := name;
      this.fullyQualifiedPrefix := fullyQualifiedPrefix;
      originalName := name;
      package := "";
      isDeprecated := false;
      isValueType := false;
      access := Public;
      messages := [];
      enums := [];
      fields := [];
      repr := {this};
    }

    predicate ShouldSerializeMessages()
      reads this
    {
      |messages| > 0
    }

    predicate ShouldSerializeEnums()
      reads this
    {
      |enums| > 0
    }

    predicate ShouldSerializeFields()
      reads this
    {
      |fields| > 0
    }

    predicate ShouldSerializeOriginalName()
      reads this
    {
      originalName != name
    }

    predicate ShouldSerializePackage()
      reads this
    {
      !IsNullOrWhiteSpace(package)
    }

    /** Builds the node for message descriptor `d` (recursively for its nested
        messages and enums) and registers everything it builds. The message is
        registered before any of its fields or nested types is parsed. */
    static method Parse(d: DescriptorProto, fullyQualifiedPrefix: string, ctx: ParseContext, package: string)
      returns (m: Message)
      requires ctx.Valid()
      requires FreshNames(Names(d, ctx.isMapEntry), ctx.registry.Keys)
      modifies ctx
      decreases d, 5
      ensures ctx.Valid()
      ensures fresh(m) && fresh(m.repr)
      ensures ctx.registry.Keys == old(ctx.registry.Keys) + Elems(Names(d, ctx.isMapEntry))
      ensures Extends(old(ctx.registry), ctx.registry)
      ensures Parsed(m, d, fullyQualifiedPrefix, package, ctx, old(ctx.registry.Keys), ctx.registry)
    {
      NamesFresh(d, ctx.isMapEntry, ctx.registry.Keys);
      var name := ctx.nameNormalizer.messageName(d);
      m := new Message(name, fullyQualifiedPrefix);
      ctx.Register(d.fullyQualifiedName, MessageType(m));
      m.originalName, m.package := d.name, package;
      m.ParseMembers(d, ctx, package, old(ctx.registry));
    }

    /** Parse once the message node is built, named and registered (on top of
        the registry `start`): its fields, then its nested types and enums. */
    method ParseMembers(d: DescriptorProto, ctx: ParseContext, package: string, ghost start: map<string, TypeRef>)
      requires ctx.Valid()
      requires fields == [] && messages == [] && enums == [] && repr == {this}
      requires HeaderFrom(this, d, fullyQualifiedPrefix, package, ctx)
      requires FreshNames(Names(d, ctx.isMapEntry), start.Keys)
      requires ctx.registry == start[d.fullyQualifiedName := MessageType(this)]
      modifies ctx, this`fields, this`messages, this`enums, this`repr
      decreases d, 4
      ensures ctx.Valid()
      ensures ctx.registry.Keys == start.Keys + Elems(Names(d, ctx.isMapEntry))
      ensures Extends(start, ctx.registry)
      ensures fresh(repr - {this})
      ensures Parsed(this, d, fullyQualifiedPrefix, package, ctx, start.Keys, ctx.registry)
    {
      NamesFresh(d, ctx.isMapEntry, start.Keys);
      RegisteredNames(d, ctx.isMapEntry, start.Keys);
      assert ctx.registry.Keys == start.Keys + {d.fullyQualifiedName};
      assert Extends(start, ctx.registry);
      ParseFields(d, ctx);
      ghost var withFields := repr;
      assert fresh(withFields - {this});
      if |d.nestedTypes| > 0 || |d.enumTypes| > 0 {
        ghost var atChildren := ctx.registry;
        ghost var head := HeadParsed(this, d, fullyQualifiedPrefix, package, ctx, start.Keys, atChildren);
        assert head;
        ParseChildren(d, ctx, package, start.Keys + {d.fullyQualifiedName});
        assert head == HeadParsed(this, d, fullyQualifiedPrefix, package, ctx, start.Keys, atChildren);
        HeadGrows(this, d, fullyQualifiedPrefix, package, ctx, start.Keys, atChildren, ctx.registry);
        ExtendsTrans(start, atChildren, ctx.registry);
        assert fresh(repr - withFields);
        assert fresh(withFields - {this});
        assert repr - {this} <= (withFields - {this}) + (repr - withFields);
      } else {
        assert Elems(NestedNames(d, ctx.isMapEntry, 0)) == {} && Elems(EnumNames(d.enumTypes)) == {};
      }
      ParsedIntro(this, d, fullyQualifiedPrefix, package, ctx, start.Keys, ctx.registry);
    }

    /** The nested types, then the enums, of `d`, which has some, all under the
        prefix made of this message's own prefix and name. */
    method ParseChildren(d: DescriptorProto, ctx: ParseContext, package: string, ghost known: set<string>)
      requires ctx.Valid() && ctx.registry.Keys == known
      requires |d.nestedTypes| > 0 || |d.enumTypes| > 0
      requires messages == [] && enums == [] && {this} + FieldSet(fields) <= repr && ctx !in repr
      requires FreshNames(NestedNames(d, ctx.isMapEntry, |d.nestedTypes|), ctx.registry.Keys)
      requires FreshNames(EnumNames(d.enumTypes), ctx.registry.Keys + Elems(NestedNames(d, ctx.isMapEntry, |d.nestedTypes|)))
      modifies ctx, this`messages, this`enums, this`repr
      decreases d, 3
      ensures ctx.Valid()
      ensures ctx.registry.Keys == old(ctx.registry.Keys) + Elems(NestedNames(d, ctx.isMapEntry, |d.nestedTypes|))
                                                         + Elems(EnumNames(d.enumTypes))
      ensures Extends(old(ctx.registry), ctx.registry)
      ensures old(repr) <= repr && fresh(repr - old(repr))
      ensures MapEntriesRecorded(d, |d.nestedTypes|, ctx, ctx.registry)
      ensures ChildrenParsed(this, {this} + FieldSet(fields), messages, repr, d, |d.nestedTypes|, fullyQualifiedPrefix + name + "+", package, ctx,
                             known, ctx.registry)
      ensures EnumsFrom(this, d, fullyQualifiedPrefix + name + "+", package, ctx, ctx.registry)
    {
      var prefix := fullyQualifiedPrefix + name + "+";
      ghost var owner := {this} + FieldSet(fields);
      ParseNestedTypes(d, prefix, ctx, package, known, owner);
      ghost var afterNested := ctx.registry;
      ghost var nested := ChildrenParsed(this, owner, messages, repr, d, |d.nestedTypes|, prefix, package, ctx, known, afterNested);
      assert nested;
      ParseEnums(d, prefix, ctx, package);
      assert nested == ChildrenParsed(this, owner, messages, repr, d, |d.nestedTypes|, prefix, package, ctx, known, afterNested);
      ChildrenGrow(this, owner, messages, repr, d, |d.nestedTypes|, prefix, package, ctx, known, afterNested, ctx.registry);
      assert prefix == fullyQualifiedPrefix + name + "+" && owner == {this} + FieldSet(fields);
    }

    /** The field loop of Parse, run when there are fields: one field node per
        field descriptor, in order, each typed against the registry as it stands
        once this message is registered. */
    method ParseFields(d: DescriptorProto, ctx: ParseContext)
      requires fields == [] && repr == {this}
      requires d.fullyQualifiedName in ctx.registry && ctx.registry[d.fullyQualifiedName] == MessageType(this)
      modifies this`fields, this`repr
      ensures repr == {this} + FieldSet(fields) && fresh(FieldSet(fields))
      ensures FieldsFrom(this, d, ctx, ctx.registry.Keys, ctx.registry)
      ensures forall i :: 0 <= i < |d.fields| ==> fields[i].fieldType == ResolveName(d.fields[i].typeName, ctx.registry)
    {
      if |d.fields| > 0 {
        for i := 0 to |d.fields|
          invariant |fields| == i
          invariant repr == {this} + FieldSet(fields) && fresh(FieldSet(fields))
          invariant forall j, k :: 0 <= j < k < i ==> fields[j] != fields[k]
          invariant forall j :: 0 <= j < i ==> FieldFrom(fields[j], d.fields[j], ctx)
          invariant forall j :: 0 <= j < i ==> fields[j].fieldType == ResolveName(d.fields[j].typeName, ctx.registry)
        {
          var field := Field.Parse(d.fields[i], ctx);
          fields := fields + [field];
          repr := repr + {field};
        }
      }
    }

    /** The nested-type loop of Parse: each nested type in declaration order. */
    method ParseNestedTypes(d: DescriptorProto, prefix: string, ctx: ParseContext, package: string,
                            ghost known: set<string>, ghost owner: set<object>)
      requires ctx.Valid() && ctx.registry.Keys == known
      requires FreshNames(NestedNames(d, ctx.isMapEntry, |d.nestedTypes|), ctx.registry.Keys)
      requires messages == [] && this in owner && owner <= repr && ctx !in repr
      modifies ctx, this`messages, this`repr
      decreases d, 2
      ensures ctx.Valid()
      ensures ctx.registry.Keys == old(ctx.registry.Keys) + Elems(NestedNames(d, ctx.isMapEntry, |d.nestedTypes|))
      ensures Extends(old(ctx.registry), ctx.registry)
      ensures MapEntriesRecorded(d, |d.nestedTypes|, ctx, ctx.registry)
      ensures old(repr) <= repr && fresh(repr - old(repr)) && ctx !in repr
      ensures ChildrenParsed(this, owner, messages, repr, d, |d.nestedTypes|, prefix, package, ctx, known, ctx.registry)
    {
      ghost var start := ctx.registry;
      for i := 0 to |d.nestedTypes|
        modifies ctx, this`messages, this`repr
        invariant NestedTypesParsed(d, i, prefix, package, ctx, known, owner, start)
        invariant old(repr) <= repr && fresh(repr - old(repr))
      {
        ghost var held := repr;
        ParseNestedType(d, i, prefix, ctx, package, known, owner, start);
        assert repr - old(repr) <= (held - old(repr)) + (repr - held);
      }
    }

    /** The state of the nested-type loop once it has seen the first n nested
        types of `d`: the registry holds the names `known` it started from (as
        `start`, which it extends) and the names of those types, every map
        entry among them is recorded, and the nested message nodes are what
        Parse builds from the others, apart from `owner` (this message and its fields). */
    ghost predicate NestedTypesParsed(d: DescriptorProto, n: nat, prefix: string, package: string, ctx: ParseContext,
                                      known: set<string>, owner: set<object>, start: map<string, TypeRef>)
      requires n <= |d.nestedTypes|
      reads this, repr, ctx
    {
      && ctx.Valid()
      && ctx.registry.Keys == known + Elems(NestedNames(d, ctx.isMapEntry, n))
      && Extends(start, ctx.registry)
      && MapEntriesRecorded(d, n, ctx, ctx.registry)
      && this in owner && owner <= repr && ctx !in repr
      && ChildrenParsed(this, owner, messages, repr, d, n, prefix, package, ctx, known, ctx.registry)
    }

    /** One turn of the nested-type loop, for the i-th nested type of `d`: the
        map-entry test sees it first, and only a type it rejects is parsed
        (recursively) into the next nested message node. */
    method ParseNestedType(d: DescriptorProto, i: nat, prefix: string, ctx: ParseContext, package: string,
                           ghost taken: set<string>, ghost owner: set<object>, ghost start: map<string, TypeRef>)
      requires i < |d.nestedTypes|
      requires FreshNames(NestedNames(d, ctx.isMapEntry, |d.nestedTypes|), taken)
      requires NestedTypesParsed(d, i, prefix, package, ctx, taken, owner, start)
      modifies ctx, this`messages, this`repr
      decreases d, 1
      ensures NestedTypesParsed(d, i + 1, prefix, package, ctx, taken, owner, start)
      ensures old(repr) <= repr && fresh(repr - old(repr))
    {
      var t := d.nestedTypes[i];
      NestedItemFresh(d, ctx.isMapEntry, |d.nestedTypes|, i, taken);
      NestedNamesStep(d, ctx.isMapEntry, i, taken);
      ghost var before := ctx.registry;
      assert ctx.isMapEntry(t) ==> ItemNames(t, ctx.isMapEntry)[0] == t.fullyQualifiedName;
      ghost var head := ChildrenParsed(this, owner, messages, repr, d, i, prefix, package, ctx, taken, before);
      assert head;
      var isEntry := ctx.AddMapEntry(t);
      assert head == ChildrenParsed(this, owner, messages, repr, d, i, prefix, package, ctx, taken, before);
      ChildrenGrow(this, owner, messages, repr, d, i, prefix, package, ctx, taken, before, ctx.registry);
      if !isEntry {
        ParseNestedMessage(d, i, prefix, ctx, package, taken, owner);
      } else {
        ChildrenSkip(this, owner, messages, repr, d, i, prefix, package, ctx, taken, ctx.registry);
      }
      assert ctx.registry.Keys == before.Keys + Elems(ItemNames(t, ctx.isMapEntry));
      MapEntriesStep(d, i, ctx, before, ctx.registry);
      ExtendsTrans(start, before, ctx.registry);
    }

    /** Parses the i-th nested type of `d`, which is not a map entry, and appends
        its node as the next nested message. */
    method ParseNestedMessage(d: DescriptorProto, i: nat, prefix: string, ctx: ParseContext, package: string,
                              ghost taken: set<string>, ghost owner: set<object>)
      requires i < |d.nestedTypes| && !ctx.isMapEntry(d.nestedTypes[i])
      requires ctx.Valid() && ctx.registry.Keys == taken + Elems(NestedNames(d, ctx.isMapEntry, i))
      requires FreshNames(Names(d.nestedTypes[i], ctx.isMapEntry), ctx.registry.Keys)
      requires this in owner && owner <= repr && ctx !in repr
      requires ChildrenParsed(this, owner, messages, repr, d, i, prefix, package, ctx, taken, ctx.registry)
      modifies ctx, this`messages, this`repr
      decreases d, 0
      ensures ctx.Valid()
      ensures ctx.registry.Keys == old(ctx.registry.Keys) + Elems(Names(d.nestedTypes[i], ctx.isMapEntry))
      ensures Extends(old(ctx.registry), ctx.registry)
      ensures old(repr) <= repr && fresh(repr - old(repr)) && ctx !in repr
      ensures ChildrenParsed(this, owner, messages, repr, d, i + 1, prefix, package, ctx, taken, ctx.registry)
    {
      ghost var before := ctx.registry;
      var nested := Parse(d.nestedTypes[i], prefix, ctx, package);
      ChildrenGrow(this, owner, messages, repr, d, i, prefix, package, ctx, taken, before, ctx.registry);
      ChildrenAppend(this, owner, messages, repr, nested, d, i, prefix, package, ctx, taken, ctx.registry);
      messages, repr := messages + [nested], repr + nested.repr;
    }

    /** The enum loop of Parse: one enum node per enum descriptor, in order, each registered. */
    method ParseEnums(d: DescriptorProto, prefix: string, ctx: ParseContext, package: string)
      requires ctx.Valid()
      requires FreshNames(EnumNames(d.enumTypes), ctx.registry.Keys)
      requires enums == []
      modifies ctx, this`enums
      ensures ctx.Valid()
      ensures ctx.registry.Keys == old(ctx.registry.Keys) + Elems(EnumNames(d.enumTypes))
      ensures Extends(old(ctx.registry), ctx.registry)
      ensures EnumsFrom(this, d, prefix, package, ctx, ctx.registry)
    {
      ghost var start := ctx.registry;
      for k := 0 to |d.enumTypes|
        invariant ctx.Valid()
        invariant ctx.registry.Keys == start.Keys + Elems(EnumNames(d.enumTypes)[..k])
        invariant Extends(start, ctx.registry)
        invariant |enums| == k
        invariant forall j :: 0 <= j < k ==>
          && EnumFrom(enums[j], d.enumTypes[j], prefix, package, ctx)
          && d.enumTypes[j].fullyQualifiedName in ctx.registry
          && ctx.registry[d.enumTypes[j].fullyQualifiedName] == EnumType(enums[j])
      {
        FreshNamesAt(EnumNames(d.enumTypes), start.Keys, k);
        assert EnumNames(d.enumTypes)[..k + 1] == EnumNames(d.enumTypes)[..k] + [d.enumTypes[k].fullyQualifiedName];
        var e := ParseEnum(d.enumTypes[k], prefix, ctx, package);
        enums := enums + [e];
      }
      assert EnumNames(d.enumTypes)[..|d.enumTypes|] == EnumNames(d.enumTypes);
    }
    /** The second pass over this message's fields: resolves placeholders, gives
        each field that still tracks presence the next slot of a counter local to
        this message (a reference-type message field uses null instead and is
        demoted to Always), and turns repeated map-entry fields into dictionaries. */
    method FixupPlaceholders(ctx: ParseContext)
      requires forall i, j :: 0 <= i < j < |fields| ==> fields[i] != fields[j]
      modifies FieldSet(fields)
      ensures FixedUpAll(StatesOf(fields), old(StatesOf(fields)), ctx.registry)
      ensures forall i :: 0 <= i < |fields| && fields[i].conditional == FieldPresence ==> !UsesNullForPresence(fields[i].fieldType)
      ensures Presence.Dense(Conditionals(StatesOf(fields)), PresenceIndices(StatesOf(fields)))
    {
      if ShouldSerializeFields() {
        FixupFields(ctx);
      }
      ghost var after := StatesOf(fields);
      FixedUpNumbered(after, old(StatesOf(fields)), ctx.registry);
      Presence.NumberedDense(Conditionals(after), PresenceIndices(after));
    }

    /** The field loop of the second pass, with the presence counter starting at 0. */
    method FixupFields(ctx: ParseContext)
      requires forall i, j :: 0 <= i < j < |fields| ==> fields[i] != fields[j]
      modifies FieldSet(fields)
      ensures FixedUpAll(StatesOf(fields), old(StatesOf(fields)), ctx.registry)
    {
      var nextTrackingIndex := 0;
      ghost var before := StatesOf(fields);
      ghost var after: seq<FieldState> := [];
      for i := 0 to |fields|
        invariant |after| == i
        invariant nextTrackingIndex == Presence.Slots(Conditionals(after))
        invariant forall j :: 0 <= j < i ==> StateOf(fields[j]) == after[j]
        invariant forall j :: i <= j < |fields| ==> StateOf(fields[j]) == before[j]
        invariant FixedUpAll(after, before, ctx.registry)
      {
        nextTrackingIndex, after := FixupStep(ctx, i, nextTrackingIndex, before, after);
      }
      assert after == StatesOf(fields);
    }

    /** One turn of the field loop: fixes up the i-th field, the first i being
        fixed up already and the rest untouched. */
    method FixupStep(ctx: ParseContext, i: nat, slot: nat, ghost before: seq<FieldState>, ghost after: seq<FieldState>)
      returns (next: nat, ghost after': seq<FieldState>)
      requires forall i, j :: 0 <= i < j < |fields| ==> fields[i] != fields[j]
      requires i < |fields| == |before| && |after| == i
      requires slot == Presence.Slots(Conditionals(after))
      requires forall j :: 0 <= j < i ==> StateOf(fields[j]) == after[j]
      requires forall j :: i <= j < |fields| ==> StateOf(fields[j]) == before[j]
      requires FixedUpAll(after, before, ctx.registry)
      modifies fields[i]
      ensures |after'| == i + 1
      ensures next == Presence.Slots(Conditionals(after'))
      ensures forall j :: 0 <= j < i + 1 ==> StateOf(fields[j]) == after'[j]
      ensures forall j :: i + 1 <= j < |fields| ==> StateOf(fields[j]) == before[j]
      ensures FixedUpAll(after', before, ctx.registry)
    {
      var field := fields[i];
      label Turn:
      next := FixupField(field, ctx, slot);
      forall j | 0 <= j < |fields| && j != i
        ensures StateOf(fields[j]) == old@Turn(StateOf(fields[j]))
      {
        assert fields[j] != field;
      }
      Presence.SlotsAppend(Conditionals(after), field.conditional);
      ConditionalsAppend(after, StateOf(field));
      FixedUpAllAppend(after, before, ctx.registry, StateOf(field));
      after' := after + [StateOf(field)];
    }

    /** One turn of the second pass, for one field: `slot` is the next free
        presence slot of this message, and the result is the one after the
        field has taken what it needs. */
    static method FixupField(field: Field, ctx: ParseContext, slot: nat) returns (next: nat)
      modifies field
      ensures FixedUp(StateOf(field), old(StateOf(field)), ctx.registry, slot)
      ensures field.conditional == FieldPresence ==> !UsesNullForPresence(field.fieldType)
      ensures next == slot + (if field.conditional == FieldPresence then 1 else 0)
    {
      next := slot;
      var (ok, found) := ctx.FixupPlaceholder(field.fieldType);
      if ok {
        field.fieldType := found;
      }
      if field.conditional == FieldPresence {
        if field.fieldType.MessageType? && !field.fieldType.message.isValueType {
          field.conditional := Always; // null marks absence
        } else {
          field.fieldPresenceIndex := Some(next);
          next := next + 1;
        }
      }
      if field.IsRepeated() && field.fieldType.MapEntryType? {
        field.repeated := Dictionary;
      }
    }
  }

  // ---------------------------------------------------------------------------
  // What Parse builds

  /** The names and package Parse gives message node `m` built from `d`; the
      flags keep the defaults the constructor gives them. */
  ghost predicate HeaderFrom(m: Message, d: DescriptorProto, prefix: string, package: string, ctx: ParseContext)
    reads m`name, m`originalName, m`package, m`isDeprecated, m`isValueType, m`access
  {
    && m.name == ctx.nameNormalizer.messageName(d)
    && m.originalName == d.name
    && m.package == package
    && m.fullyQualifiedPrefix == prefix
    && !m.isDeprecated && !m.isValueType && m.access == Public
  }

  /** `m`'s fields are distinct nodes parsed from `d`'s fields in order, while the
      names `known` were registered, and typed as `registry` explains. */
  ghost predicate FieldsFrom(m: Message, d: DescriptorProto, ctx: ParseContext, known: set<string>,
                             registry: map<string, TypeRef>)
    reads m`fields, FieldSet(m.fields)
  {
    && |m.fields| == |d.fields|
    && (forall i, j :: 0 <= i < j < |m.fields| ==> m.fields[i] != m.fields[j])
    && (forall i :: 0 <= i < |m.fields| ==>
          FieldFrom(m.fields[i], d.fields[i], ctx) && TypeFrom(m.fields[i].fieldType, d.fields[i].typeName, known, registry))
  }

  /** What Parse has built of `m` by the time it turns to the nested types: the
      names, the registration of `m` itself, and the fields, parsed once the
      names `known` (registered before the parse began) and `m`'s own were. */
  ghost predicate HeadParsed(m: Message, d: DescriptorProto, prefix: string, package: string,
                             ctx: ParseContext, known: set<string>, registry: map<string, TypeRef>)
    reads m`name, m`originalName, m`package, m`isDeprecated, m`isValueType, m`access, m`fields, FieldSet(m.fields)
  {
    && HeaderFrom(m, d, prefix, package, ctx)
    && d.fullyQualifiedName in registry
    && registry[d.fullyQualifiedName] == MessageType(m)
    && FieldsFrom(m, d, ctx, known + {d.fullyQualifiedName}, registry)
  }

  /** `m`'s enums are the nodes parsed from `d`'s enum descriptors in order, each registered. */
  ghost predicate EnumsFrom(m: Message, d: DescriptorProto, prefix: string, package: string,
                            ctx: ParseContext, registry: map<string, TypeRef>)
    reads m`enums
  {
    && |m.enums| == |d.enumTypes|
    && (forall k :: 0 <= k < |m.enums| ==>
          && EnumFrom(m.enums[k], d.enumTypes[k], prefix, package, ctx)
          && d.enumTypes[k].fullyQualifiedName in registry
          && registry[d.enumTypes[k].fullyQualifiedName] == EnumType(m.enums[k]))
  }

  /** Message node `m` is what Parse builds from `d` under the given prefix and
      package, starting when the names `known` were registered, judged against
      `registry` (any registry that extends the one the parse ended with). The
      i-th nested type, when the map-entry test rejects it, becomes the nested
      message node at the position given by the number of rejected types
      before it, and its parse starts once `m` and everything the nested types
      before it register are registered. */
  ghost predicate Parsed(m: Message, d: DescriptorProto, prefix: string, package: string,
                         ctx: ParseContext, known: set<string>, registry: map<string, TypeRef>)
    reads m, m.repr
    decreases d
  {
    && m in m.repr
    && FieldSet(m.fields) <= m.repr
    && HeadParsed(m, d, prefix, package, ctx, known, registry)
    && MapEntriesRecorded(d, |d.nestedTypes|, ctx, registry)
    && EnumsFrom(m, d, prefix + m.name + "+", package, ctx, registry)
    && |m.messages| == KeptCount(d.nestedTypes, ctx.isMapEntry, |d.nestedTypes|)
    && (forall j :: 0 <= j < |m.messages| ==>
          && m.messages[j] in m.repr && m.messages[j].repr <= m.repr
          && m.messages[j].repr !! {m} + FieldSet(m.fields))
    && (forall j1, j2 :: 0 <= j1 < j2 < |m.messages| ==> m.messages[j1].repr !! m.messages[j2].repr)
    && (forall i {:trigger KeptCount(d.nestedTypes, ctx.isMapEntry, i)} :: 0 <= i < |d.nestedTypes| && !ctx.isMapEntry(d.nestedTypes[i]) ==>
          var j := KeptCount(d.nestedTypes, ctx.isMapEntry, i);
          && j < |m.messages|
          && Parsed(m.messages[j], d.nestedTypes[i], prefix + m.name + "+", package, ctx,
                    known + {d.fullyQualifiedName} + Elems(NestedNames(d, ctx.isMapEntry, i)), registry))
  }

  /** `msgs`, as the nested message nodes of `m` with representation `repr`,
      are what Parse builds from the first n nested types of `d`, the first
      of them starting when the names `known` were registered; they lie within
      `repr`, share no object with `owner` (`m` and its fields), nor with each other. */
  ghost predicate ChildrenParsed(m: Message, owner: set<object>, msgs: seq<Message>, repr: set<object>, d: DescriptorProto, n: nat,
                                 prefix: string, package: string, ctx: ParseContext, known: set<string>,
                                 registry: map<string, TypeRef>)
    requires n <= |d.nestedTypes|
    reads repr - {m}
  {
    && |msgs| == KeptCount(d.nestedTypes, ctx.isMapEntry, n)
    && (forall j :: 0 <= j < |msgs| ==>
          && msgs[j] in repr && msgs[j] != m && msgs[j].repr <= repr
          && m !in msgs[j].repr && msgs[j].repr !! owner)
    && (forall j1, j2 :: 0 <= j1 < j2 < |msgs| ==> msgs[j1].repr !! msgs[j2].repr)
    && (forall i {:trigger KeptCount(d.nestedTypes, ctx.isMapEntry, i)} :: 0 <= i < n && !ctx.isMapEntry(d.nestedTypes[i]) ==>
          var j := KeptCount(d.nestedTypes, ctx.isMapEntry, i);
          && j < |msgs|
          && Parsed(msgs[j], d.nestedTypes[i], prefix, package, ctx, known + Elems(NestedNames(d, ctx.isMapEntry, i)), registry))
  }

  /** Parsed is the conjunction of its parts. */
  lemma ParsedIntro(m: Message, d: DescriptorProto, prefix: string, package: string,
                    ctx: ParseContext, known: set<string>, registry: map<string, TypeRef>)
    requires m in m.repr && FieldSet(m.fields) <= m.repr
    requires HeadParsed(m, d, prefix, package, ctx, known, registry)
    requires MapEntriesRecorded(d, |d.nestedTypes|, ctx, registry)
    requires EnumsFrom(m, d, prefix + m.name + "+", package, ctx, registry)
    requires ChildrenParsed(m, {m} + FieldSet(m.fields), m.messages, m.repr, d, |d.nestedTypes|, prefix + m.name + "+", package, ctx,
                            known + {d.fullyQualifiedName}, registry)
    ensures Parsed(m, d, prefix, package, ctx, known, registry)
  {
    assert d.nestedTypes[..|d.nestedTypes|] == d.nestedTypes;
  }

  /** The collection flags the serializer consults on a parsed message: it has
      fields exactly when its descriptor has, enums likewise, and nested
      messages exactly when some nested type is not a map entry. */
  lemma ParsedShouldSerialize(m: Message, d: DescriptorProto, prefix: string, package: string,
                              ctx: ParseContext, known: set<string>, registry: map<string, TypeRef>)
    requires Parsed(m, d, prefix, package, ctx, known, registry)
    ensures m.ShouldSerializeFields() <==> |d.fields| > 0
    ensures m.ShouldSerializeEnums() <==> |d.enumTypes| > 0
    ensures m.ShouldSerializeMessages() <==> exists t :: t in d.nestedTypes && !ctx.isMapEntry(t)
  {
    KeptCountPositive(d.nestedTypes, ctx.isMapEntry, |d.nestedTypes|);
    if m.ShouldSerializeMessages() {
      var i :| 0 <= i < |d.nestedTypes| && !ctx.isMapEntry(d.nestedTypes[i]);
      assert d.nestedTypes[i] in d.nestedTypes;
    }
    forall t | t in d.nestedTypes && !ctx.isMapEntry(t) ensures m.ShouldSerializeMessages() {
      var i :| 0 <= i < |d.nestedTypes| && d.nestedTypes[i] == t;
    }
  }

  /** A parsed message keeps the schema name as its original name, which is
      worth writing exactly when the naming policy changed it, and the package
      it was given, which is worth writing unless it is blank. */
  lemma ParsedOriginalName(m: Message, d: DescriptorProto, prefix: string, package: string,
                           ctx: ParseContext, known: set<string>, registry: map<string, TypeRef>)
    requires Parsed(m, d, prefix, package, ctx, known, registry)
    ensures m.name == ctx.nameNormalizer.messageName(d) && m.originalName == d.name && m.package == package
    ensures m.ShouldSerializeOriginalName() <==> ctx.nameNormalizer.messageName(d) != d.name
    ensures m.ShouldSerializePackage() <==> exists k :: 0 <= k < |package| && !IsWhiteSpace(package[k])
  {
  }

  /** The fields of a parsed message are parsed after the message registers
      itself: a field naming the message refers to `m`, a field naming a type
      registered before the parse began refers to that type's node, and a field
      naming any other type is left as a placeholder for the second pass. */
  lemma ParsedFieldTypes(m: Message, d: DescriptorProto, prefix: string, package: string,
                         ctx: ParseContext, known: set<string>, registry: map<string, TypeRef>, i: nat)
    requires Parsed(m, d, prefix, package, ctx, known, registry)
    requires i < |d.fields| && d.fields[i].typeName.Named?
    ensures i < |m.fields|
    ensures d.fields[i].typeName.fullyQualifiedName == d.fullyQualifiedName ==> m.fields[i].fieldType == MessageType(m)
    ensures d.fields[i].typeName.fullyQualifiedName in known ==>
      m.fields[i].fieldType == registry[d.fields[i].typeName.fullyQualifiedName]
    ensures d.fields[i].typeName.fullyQualifiedName !in known + {d.fullyQualifiedName} ==>
      m.fields[i].fieldType == Placeholder(d.fields[i].typeName.fullyQualifiedName)
  {
    assert TypeFrom(m.fields[i].fieldType, d.fields[i].typeName, known + {d.fullyQualifiedName}, registry);
  }

  /** Every nested message node of a parsed message comes from a nested type
      that the map-entry test rejected: the k-th node is parsed from the k-th
      such type, so no map entry ever becomes a node. */
  lemma ParsedMessagesKept(m: Message, d: DescriptorProto, prefix: string, package: string,
                           ctx: ParseContext, known: set<string>, registry: map<string, TypeRef>, k: nat)
    requires Parsed(m, d, prefix, package, ctx, known, registry)
    requires k < |m.messages|
    ensures exists i :: && 0 <= i < |d.nestedTypes| && !ctx.isMapEntry(d.nestedTypes[i])
                        && KeptCount(d.nestedTypes, ctx.isMapEntry, i) == k
                        && Parsed(m.messages[k], d.nestedTypes[i], prefix + m.name + "+", package, ctx,
                                  known + {d.fullyQualifiedName} + Elems(NestedNames(d, ctx.isMapEntry, i)), registry)
  {
    KeptPositionsCover(d.nestedTypes, ctx.isMapEntry, |d.nestedTypes|, k);
    var i :| 0 <= i < |d.nestedTypes| && !ctx.isMapEntry(d.nestedTypes[i]) && KeptCount(d.nestedTypes, ctx.isMapEntry, i) == k;
    assert Parsed(m.messages[k], d.nestedTypes[i], prefix + m.name + "+", package, ctx,
                  known + {d.fullyQualifiedName} + Elems(NestedNames(d, ctx.isMapEntry, i)), registry);
  }

  /** Nested message nodes come from the same constructor as the root: none is
      deprecated or a value type, each is public, and so a field typed with one
      signals absence by null. */
  lemma ParsedNestedDefaults(m: Message, d: DescriptorProto, prefix: string, package: string,
                             ctx: ParseContext, known: set<string>, registry: map<string, TypeRef>, k: nat)
    requires Parsed(m, d, prefix, package, ctx, known, registry)
    requires k < |m.messages|
    ensures !m.messages[k].isDeprecated && !m.messages[k].isValueType && m.messages[k].access == Public
    ensures UsesNullForPresence(MessageType(m.messages[k]))
  {
    ParsedMessagesKept(m, d, prefix, package, ctx, known, registry, k);
  }

  /** A parsed message owns its nested message nodes: none of them is `m` or
      holds `m` or one of `m`'s field nodes, so their fields are never `m`'s;
      nodes at different positions are different and share no object. */
  lemma ParsedNestedOwned(m: Message, d: DescriptorProto, prefix: string, package: string,
                          ctx: ParseContext, known: set<string>, registry: map<string, TypeRef>, k: nat, k2: nat)
    requires Parsed(m, d, prefix, package, ctx, known, registry)
    requires k < |m.messages| && k2 < |m.messages|
    ensures m.messages[k] != m && m !in m.messages[k].repr
    ensures forall j :: 0 <= j < |m.fields| ==> m.fields[j] !in m.messages[k].repr
    ensures forall j, j2 :: 0 <= j < |m.messages[k].fields| && 0 <= j2 < |m.fields| ==>
              m.messages[k].fields[j] != m.fields[j2]
    ensures k != k2 ==> m.messages[k] != m.messages[k2] && m.messages[k].repr !! m.messages[k2].repr
  {
    ParsedMessagesKept(m, d, prefix, package, ctx, known, registry, k);
    ParsedMessagesKept(m, d, prefix, package, ctx, known, registry, k2);
    var c := m.messages[k];
    assert FieldSet(c.fields) <= c.repr;
    forall j | 0 <= j < |m.fields| ensures m.fields[j] !in c.repr {
      assert m.fields[j] in FieldSet(m.fields);
    }
    forall j, j2 | 0 <= j < |c.fields| && 0 <= j2 < |m.fields| ensures c.fields[j] != m.fields[j2] {
      assert c.fields[j] in FieldSet(c.fields);
    }
    if k != k2 {
      if k < k2 {
        assert c.repr !! m.messages[k2].repr;
      } else {
        assert m.messages[k2].repr !! c.repr;
      }
    }
  }

  /** A message is registered before its nested types are parsed: a field of
      the node parsed from the i-th nested type that names the enclosing
      message refers to the enclosing node `m`, not to a placeholder. */
  lemma ParsedParentField(m: Message, d: DescriptorProto, prefix: string, package: string,
                          ctx: ParseContext, known: set<string>, registry: map<string, TypeRef>, i: nat, j: nat)
    requires Parsed(m, d, prefix, package, ctx, known, registry)
    requires i < |d.nestedTypes| && !ctx.isMapEntry(d.nestedTypes[i])
    requires j < |d.nestedTypes[i].fields| && d.nestedTypes[i].fields[j].typeName == Named(d.fullyQualifiedName)
    ensures KeptCount(d.nestedTypes, ctx.isMapEntry, i) < |m.messages|
    ensures j < |m.messages[KeptCount(d.nestedTypes, ctx.isMapEntry, i)].fields|
    ensures m.messages[KeptCount(d.nestedTypes, ctx.isMapEntry, i)].fields[j].fieldType == MessageType(m)
  {
    var c := m.messages[KeptCount(d.nestedTypes, ctx.isMapEntry, i)];
    var inner := known + {d.fullyQualifiedName} + Elems(NestedNames(d, ctx.isMapEntry, i));
    assert Parsed(c, d.nestedTypes[i], prefix + m.name + "+", package, ctx, inner, registry);
    ParsedFieldTypes(c, d.nestedTypes[i], prefix + m.name + "+", package, ctx, inner, registry, j);
  }

  /** Nested types are parsed in declaration order, each registered before the
      next one begins: a field of the node parsed from the i-th nested type that
      names an earlier sibling parsed as a message refers to that sibling's node. */
  lemma ParsedSiblingField(m: Message, d: DescriptorProto, prefix: string, package: string,
                           ctx: ParseContext, known: set<string>, registry: map<string, TypeRef>,
                           earlier: nat, i: nat, j: nat)
    requires Parsed(m, d, prefix, package, ctx, known, registry)
    requires earlier < i < |d.nestedTypes|
    requires !ctx.isMapEntry(d.nestedTypes[earlier]) && !ctx.isMapEntry(d.nestedTypes[i])
    requires j < |d.nestedTypes[i].fields|
    requires d.nestedTypes[i].fields[j].typeName == Named(d.nestedTypes[earlier].fullyQualifiedName)
    ensures KeptCount(d.nestedTypes, ctx.isMapEntry, earlier) < KeptCount(d.nestedTypes, ctx.isMapEntry, i) < |m.messages|
    ensures j < |m.messages[KeptCount(d.nestedTypes, ctx.isMapEntry, i)].fields|
    ensures m.messages[KeptCount(d.nestedTypes, ctx.isMapEntry, i)].fields[j].fieldType
         == MessageType(m.messages[KeptCount(d.nestedTypes, ctx.isMapEntry, earlier)])
  {
    KeptPositionsIncrease(d.nestedTypes, ctx.isMapEntry, earlier, i);
    var sibling := m.messages[KeptCount(d.nestedTypes, ctx.isMapEntry, earlier)];
    assert Parsed(sibling, d.nestedTypes[earlier], prefix + m.name + "+", package, ctx,
                  known + {d.fullyQualifiedName} + Elems(NestedNames(d, ctx.isMapEntry, earlier)), registry);
    var c := m.messages[KeptCount(d.nestedTypes, ctx.isMapEntry, i)];
    var inner := known + {d.fullyQualifiedName} + Elems(NestedNames(d, ctx.isMapEntry, i));
    assert Parsed(c, d.nestedTypes[i], prefix + m.name + "+", package, ctx, inner, registry);
    EarlierNestedName(d, ctx.isMapEntry, earlier, i);
    ParsedFieldTypes(c, d.nestedTypes[i], prefix + m.name + "+", package, ctx, inner, registry, j);
  }

  /** A node's names, registration and fields stay what Parse built while the registry grows. */
  lemma HeadGrows(m: Message, d: DescriptorProto, prefix: string, package: string,
                  ctx: ParseContext, known: set<string>, r1: map<string, TypeRef>, r2: map<string, TypeRef>)
    requires HeadParsed(m, d, prefix, package, ctx, known, r1)
    requires Extends(r1, r2)
    ensures HeadParsed(m, d, prefix, package, ctx, known, r2)
  {
    forall i | 0 <= i < |m.fields|
      ensures TypeFrom(m.fields[i].fieldType, d.fields[i].typeName, known + {d.fullyQualifiedName}, r2)
    {
    }
  }

  /** Registrations are never overwritten, so a parsed tree stays what Parse built
      while later parses add to the registry. */
  lemma {:induction false} ParsedGrows(m: Message, d: DescriptorProto, prefix: string, package: string,
                                       ctx: ParseContext, known: set<string>, r1: map<string, TypeRef>, r2: map<string, TypeRef>)
    requires Parsed(m, d, prefix, package, ctx, known, r1)
    requires Extends(r1, r2)
    ensures Parsed(m, d, prefix, package, ctx, known, r2)
    decreases d
  {
    forall i | 0 <= i < |d.nestedTypes| && !ctx.isMapEntry(d.nestedTypes[i])
      ensures Parsed(m.messages[KeptCount(d.nestedTypes, ctx.isMapEntry, i)], d.nestedTypes[i],
                     prefix + m.name + "+", package, ctx,
                     known + {d.fullyQualifiedName} + Elems(NestedNames(d, ctx.isMapEntry, i)), r2)
    {
      ParsedGrows(m.messages[KeptCount(d.nestedTypes, ctx.isMapEntry, i)], d.nestedTypes[i],
                  prefix + m.name + "+", package, ctx,
                  known + {d.fullyQualifiedName} + Elems(NestedNames(d, ctx.isMapEntry, i)), r1, r2);
    }
    HeadGrows(m, d, prefix, package, ctx, known, r1, r2);
  }

  /** The nested message nodes parsed so far stay what Parse built while the registry grows. */
  lemma ChildrenGrow(m: Message, owner: set<object>, msgs: seq<Message>, repr: set<object>, d: DescriptorProto, n: nat,
                     prefix: string, package: string, ctx: ParseContext, known: set<string>,
                     r1: map<string, TypeRef>, r2: map<string, TypeRef>)
    requires n <= |d.nestedTypes|
    requires ChildrenParsed(m, owner, msgs, repr, d, n, prefix, package, ctx, known, r1)
    requires Extends(r1, r2)
    ensures ChildrenParsed(m, owner, msgs, repr, d, n, prefix, package, ctx, known, r2)
  {
    forall i | 0 <= i < n && !ctx.isMapEntry(d.nestedTypes[i])
      ensures Parsed(msgs[KeptCount(d.nestedTypes, ctx.isMapEntry, i)], d.nestedTypes[i], prefix, package, ctx,
                     known + Elems(NestedNames(d, ctx.isMapEntry, i)), r2)
    {
      ParsedGrows(msgs[KeptCount(d.nestedTypes, ctx.isMapEntry, i)], d.nestedTypes[i], prefix, package, ctx,
                  known + Elems(NestedNames(d, ctx.isMapEntry, i)), r1, r2);
    }
  }

  /** A map-entry nested type adds no nested message node. */
  lemma ChildrenSkip(m: Message, owner: set<object>, msgs: seq<Message>, repr: set<object>, d: DescriptorProto, i: nat,
                     prefix: string, package: string, ctx: ParseContext, known: set<string>, registry: map<string, TypeRef>)
    requires i < |d.nestedTypes| && ctx.isMapEntry(d.nestedTypes[i])
    requires ChildrenParsed(m, owner, msgs, repr, d, i, prefix, package, ctx, known, registry)
    ensures ChildrenParsed(m, owner, msgs, repr, d, i + 1, prefix, package, ctx, known, registry)
  {
  }

  /** Any other nested type adds, as the next node, the message `c` parsed from
      it once the names of the nested types before it were registered. */
  lemma ChildrenAppend(m: Message, owner: set<object>, msgs: seq<Message>, repr: set<object>, c: Message, d: DescriptorProto, i: nat,
                       prefix: string, package: string, ctx: ParseContext, known: set<string>, registry: map<string, TypeRef>)
    requires i < |d.nestedTypes| && !ctx.isMapEntry(d.nestedTypes[i])
    requires ChildrenParsed(m, owner, msgs, repr, d, i, prefix, package, ctx, known, registry)
    requires c in c.repr && c.repr !! repr && m in owner && owner <= repr
    requires Parsed(c, d.nestedTypes[i], prefix, package, ctx, known + Elems(NestedNames(d, ctx.isMapEntry, i)), registry)
    ensures ChildrenParsed(m, owner, msgs + [c], repr + c.repr, d, i + 1, prefix, package, ctx, known, registry)
  {
  }

  /** A fixed-up field list numbers its presence-tracking fields with the
      counter, and none of them signals absence by null. */
  lemma FixedUpNumbered(after: seq<FieldState>, before: seq<FieldState>, registry: map<string, TypeRef>)
    requires FixedUpAll(after, before, registry)
    ensures Presence.Numbered(Conditionals(after), PresenceIndices(after))
    ensures forall i :: 0 <= i < |after| && after[i].conditional == FieldPresence ==> !after[i].usesNull
  {
    forall i | 0 <= i < |after|
      ensures FixedUp(after[i], before[i], registry, Presence.Slots(Conditionals(after)[..i]))
    {
      FixedUpAllAt(after, before, registry, i);
    }
  }
}
