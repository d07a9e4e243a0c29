# Code-generation message model of protobuf-net, in Dafny

This project models `CodeGenMessage`, the language-neutral message node that
protobuf-net's code generator builds from a schema's message descriptors. Two
operations are modelled:

- **Parse.** A recursive descent over a `DescriptorProto` tree.
  - It names the new message with the naming policy and registers it in the parse context's registry under its fully-qualified name. This happens before anything else is parsed.
  - It then sets the original name and the package.
  - It appends one field node per field descriptor, in order. Each field's type is resolved against the registry as it stands at that moment, or left as a placeholder.
  - When the message has nested types or enums, each nested type is offered to the context's map-entry test. A map entry is recorded in the registry and skipped. Every other nested type is parsed recursively into the next nested message node.
  - Last come the enums. Every nested parse uses the prefix `FullyQualifiedPrefix + Name + "+"` and the parent's package.
- **FixupPlaceholders.** The second pass over one message's fields, in order.
  - A placeholder type is replaced by the registered node when the registry knows its name.
  - A field that asks for explicit presence tracking is handled in one of two ways. If its (new) type is a message that is not a value type, it is demoted to `Always`, because null marks absence. Otherwise it gets the next value of a counter that is local to the message and starts at 0.
  - A repeated field whose type is a map-entry type becomes a `Dictionary`.

The model has three modules.

- **`Descriptors`** holds the input descriptors as datatypes, plus pure bookkeeping:
  - `KeptCount` gives the position that the i-th nested type's node takes among the nested message nodes;
  - `Names` lists the names a parse registers, in registration order;
  - `FreshNames` says a list of names can be registered without a duplicate.
- **`Presence`** counts presence-tracking fields (`Slots`) and proves that numbering fields with that count gives the slots 0..k-1 in field order, with no gap and no duplicate (`Dense`).
- **`CodeGen`** holds the heap model.
  - `Message`, `Field` and `ParseContext` are classes, because the source updates them in place.
  - Enum nodes (`CodeGenEnum`) are values.
  - `Parsed` is a recursive ghost predicate that states what Parse builds from a descriptor.
  - `FixedUp` and `FixedUpAll` state what the second pass makes of each field.

Parse and FixupPlaceholders are methods with loops. The loops are proved against those predicates, and the properties the source promises are proved as lemmas about the predicates.

## Model

| member | source | states |
|---|---|---|
| CodeGen.Message.constructor | src/protobuf-net.Reflection/Internal/CodeGen/CodeGenMessage.cs:12-43 | a new message has the given name both as its name and its original name; its package is empty; it is not deprecated, not a value type, and public; it has no fields, nested messages or enums; so neither its original name nor its package is worth writing |
| CodeGen.Message.Parse | src/protobuf-net.Reflection/Internal/CodeGen/CodeGenMessage.cs:49-82 | given names that are all new to the registry, Parse returns a fresh node and tree that are exactly what `Parsed` describes for the descriptor, prefix and package, starting from the names registered before the call; every field type in the tree is the node registered under its name when that field was parsed, or a placeholder when the name was unknown then; the registry's names grow by exactly the set `Names(d)` and every earlier entry is kept; every node of the tree, nested ones included, keeps the constructor's flags (not deprecated, not a value type, public); each node's representation holds the node and its fields, and contains its nested nodes' representations, which share no object with the node, its fields or each other |
| CodeGen.Message.ParseMembers | src/protobuf-net.Reflection/Internal/CodeGen/CodeGenMessage.cs:53-79 | the message is registered before its fields and nested types are parsed, and on top of that registration the fields, nested messages and enums complete a `Parsed` node; only fresh objects join the node's representation |
| CodeGen.Message.ParseFields | src/protobuf-net.Reflection/Internal/CodeGen/CodeGenMessage.cs:57-63 | there is one new, distinct field node per field descriptor, in descriptor order; each node's type is resolved against the registry that already holds this message, so a field naming its own message refers to this node |
| CodeGen.Message.ParseChildren | src/protobuf-net.Reflection/Internal/CodeGen/CodeGenMessage.cs:65-79 | the nested messages and the enums are built under the prefix `FullyQualifiedPrefix + Name + "+"`, the i-th nested type's parse starting once the names of the types before it are registered; the registry's names grow by the nested types' names and the enums' names |
| CodeGen.Message.ParseNestedTypes | src/protobuf-net.Reflection/Internal/CodeGen/CodeGenMessage.cs:68-74 | every map-entry nested type is recorded as a map-entry node; the i-th nested type that is not a map entry becomes the nested message node at position `KeptCount(i)`, parsed with the parent's prefix and package |
| CodeGen.Message.ParseNestedType | src/protobuf-net.Reflection/Internal/CodeGen/CodeGenMessage.cs:70-73 | one turn of the nested-type loop carries its state (`NestedTypesParsed`) from the first i nested types to the first i + 1: a map entry is recorded in the registry and adds no node; any other nested type adds exactly one node, the one parsed from it, whose objects are new |
| CodeGen.Message.ParseNestedMessage | src/protobuf-net.Reflection/Internal/CodeGen/CodeGenMessage.cs:72 | the recursive parse of a nested type that is not a map entry is appended as the next nested message node |
| CodeGen.Message.ParseEnums | src/protobuf-net.Reflection/Internal/CodeGen/CodeGenMessage.cs:75-78 | there is one enum node per enum descriptor, in order, each registered under the descriptor's fully-qualified name |
| CodeGen.ParseEnum | src/protobuf-net.Reflection/Internal/CodeGen/CodeGenMessage.cs:77 | an enum node carries the normalized name, the schema name, the package and the prefix, and the registry gains exactly its entry |
| CodeGen.Field.Parse | src/protobuf-net.Reflection/Internal/CodeGen/CodeGenMessage.cs:61 | a new field node copies the descriptor's number, repetition and presence kinds, has no presence slot, and has the type the registry gives the declared name at that moment (a placeholder when the name is unknown) |
| CodeGen.ParseContext.Register | src/protobuf-net.Reflection/Internal/CodeGen/CodeGenMessage.cs:53 | registering a new name adds exactly that entry |
| CodeGen.ParseContext.AddMapEntry | src/protobuf-net.Reflection/Internal/CodeGen/CodeGenMessage.cs:70 | the answer is the map-entry test; a map entry, and nothing else, is recorded as a map-entry node under its own name |
| CodeGen.Message.ShouldSerializeMessages | src/protobuf-net.Reflection/Internal/CodeGen/CodeGenMessage.cs:24 | true iff the message has at least one nested message node; a list never allocated counts as empty |
| CodeGen.Message.ShouldSerializeEnums | src/protobuf-net.Reflection/Internal/CodeGen/CodeGenMessage.cs:25 | true iff the message has at least one enum node; a list never allocated counts as empty |
| CodeGen.Message.ShouldSerializeFields | src/protobuf-net.Reflection/Internal/CodeGen/CodeGenMessage.cs:26 | true iff the message has at least one field node; a list never allocated counts as empty |
| CodeGen.Message.ShouldSerializeOriginalName | src/protobuf-net.Reflection/Internal/CodeGen/CodeGenMessage.cs:45 | true iff the original name differs from the name |
| CodeGen.Message.ShouldSerializePackage | src/protobuf-net.Reflection/Internal/CodeGen/CodeGenMessage.cs:46 | true iff the package is not empty and not all white space |
| CodeGen.UsesNullForPresence | src/protobuf-net.Reflection/Internal/CodeGen/CodeGenMessage.cs:97 | a type signals absence by null iff it is a message node that is not a value type |
| CodeGen.ParsedShouldSerialize | src/protobuf-net.Reflection/Internal/CodeGen/CodeGenMessage.cs:24-26 | for a parsed message, fields are worth writing iff the descriptor has fields, enums iff it has enums, and nested messages iff some nested type is not a map entry |
| CodeGen.ParsedOriginalName | src/protobuf-net.Reflection/Internal/CodeGen/CodeGenMessage.cs:45-55 | a parsed message has the normalized name, the schema name as its original name, and the given package; the original name is worth writing iff the naming policy changed the schema name; the package is worth writing iff it holds a non-white-space character |
| CodeGen.ParsedFieldTypes | src/protobuf-net.Reflection/Internal/CodeGen/CodeGenMessage.cs:53-61 | a parsed message's fields are typed after the message registers itself: a field naming the message refers to the message's own node, a field naming a type registered before the parse refers to that type's node, and any other named type is a placeholder |
| CodeGen.ParsedParentField | src/protobuf-net.Reflection/Internal/CodeGen/CodeGenMessage.cs:53-72 | the parent is registered before the nested types are parsed, so a field of a nested message that names the parent refers to the parent's node |
| CodeGen.ParsedSiblingField | src/protobuf-net.Reflection/Internal/CodeGen/CodeGenMessage.cs:68-74 | nested types are parsed in declaration order, so a field of a nested message that names an earlier nested message refers to that sibling's node, which sits earlier in the nested message list |
| Descriptors.EarlierNestedName | src/protobuf-net.Reflection/Internal/CodeGen/CodeGenMessage.cs:68-74 | an earlier nested type's name is among the names registered before a later nested type is handled |
| CodeGen.ParsedNestedDefaults | src/protobuf-net.Reflection/Internal/CodeGen/CodeGenMessage.cs:52-72 | every nested message node is built by the same constructor as the root and keeps its flags: not deprecated, not a value type, public; so a field typed with a nested message signals absence by null |
| CodeGen.ParsedNestedOwned | src/protobuf-net.Reflection/Internal/CodeGen/CodeGenMessage.cs:52-72 | each nested message node is a new object of its own: it is not the parent, holds neither the parent nor any of the parent's field nodes, so its fields are never the parent's; nodes at different positions are different objects sharing no object |
| CodeGen.ParsedMessagesKept | src/protobuf-net.Reflection/Internal/CodeGen/CodeGenMessage.cs:68-74 | every nested message node was parsed from a nested type that is not a map entry: the k-th node comes from the k-th such type, parsed once the names of the nested types before it were registered |
| Descriptors.KeptPositionsIncrease | src/protobuf-net.Reflection/Internal/CodeGen/CodeGenMessage.cs:68-74 | two kept nested types get distinct node positions, in declaration order |
| Descriptors.KeptPositionsCover | src/protobuf-net.Reflection/Internal/CodeGen/CodeGenMessage.cs:68-74 | every node position below the number of kept types belongs to some kept type |
| Descriptors.KeptCountPositive | src/protobuf-net.Reflection/Internal/CodeGen/CodeGenMessage.cs:24 | some nested node exists iff some nested type is not a map entry |
| Descriptors.NamesFresh | src/protobuf-net.Reflection/Internal/CodeGen/CodeGenMessage.cs:53-77 | when everything a parse registers is new, the message's own name, its nested types' names and its enums' names are each new when their turn comes |
| Descriptors.RegisteredNames | src/protobuf-net.Reflection/Internal/CodeGen/CodeGenMessage.cs:53-77 | the names a parse registers are the message's own name, its nested types' names and its enums' names, as a set |
| CodeGen.ParsedGrows | src/protobuf-net.Reflection/Internal/CodeGen/CodeGenMessage.cs:53 | registrations are never overwritten, so a parsed tree stays what Parse built while later parses add to the registry |
| CodeGen.HeadGrows | src/protobuf-net.Reflection/Internal/CodeGen/CodeGenMessage.cs:57-63 | a node's names, its registration and its field types stay valid while the registry grows |
| CodeGen.Message.FixupPlaceholders | src/protobuf-net.Reflection/Internal/CodeGen/CodeGenMessage.cs:84-112 | every field is fixed up as `FixedUp` describes, with the slot counted over the fields before it; no field that still tracks presence has a type that signals absence by null; the presence slots are exactly 0..k-1 in field order; a message without fields is left unchanged |
| CodeGen.Message.FixupFields | src/protobuf-net.Reflection/Internal/CodeGen/CodeGenMessage.cs:88-110 | the loop fixes up the fields in order, with the counter starting at 0 and always equal to the number of presence slots handed out so far |
| CodeGen.Message.FixupStep | src/protobuf-net.Reflection/Internal/CodeGen/CodeGenMessage.cs:89-110 | one turn fixes up the i-th field and extends the fixed-up prefix by one; the fields after it are untouched |
| CodeGen.Message.FixupField | src/protobuf-net.Reflection/Internal/CodeGen/CodeGenMessage.cs:91-109 | the type is replaced exactly when the registry resolves a placeholder; a presence field of a reference-type message becomes `Always`, and any other presence field takes the slot and advances the counter by one; a repeated map-entry field becomes a `Dictionary`; nothing else changes |
| CodeGen.ParseContext.FixupPlaceholder | src/protobuf-net.Reflection/Internal/CodeGen/CodeGenMessage.cs:91 | success iff the type is a placeholder whose name is registered, and then the result is the registered node; otherwise the type comes back unchanged |
| CodeGen.FixedUpAllAt | src/protobuf-net.Reflection/Internal/CodeGen/CodeGenMessage.cs:88-110 | each field of a fixed-up prefix is fixed up with the slot counted over the fields before it |
| CodeGen.FixedUpNumbered | src/protobuf-net.Reflection/Internal/CodeGen/CodeGenMessage.cs:95-104 | after the pass, each presence field carries the number of presence fields before it, and none of them signals absence by null |
| Presence.NumberedDense | src/protobuf-net.Reflection/Internal/CodeGen/CodeGenMessage.cs:88-104 | numbering with the counter gives every presence field a slot, the slots increase along the fields, and together they are exactly 0..k-1 |
| Presence.SlotsGapFree | src/protobuf-net.Reflection/Internal/CodeGen/CodeGenMessage.cs:103 | every slot below the count belongs to some presence field |
| Presence.SlotsIncrease | src/protobuf-net.Reflection/Internal/CodeGen/CodeGenMessage.cs:103 | two presence fields get slots in field order, so never the same slot |
| Presence.SlotBelowTotal | src/protobuf-net.Reflection/Internal/CodeGen/CodeGenMessage.cs:103 | a presence field's slot is below the message's slot count |

## Left out

- The collaborators whose source is not part of this model are stated abstractly:
  - the `CodeGenType` base class;
  - `NameNormalizer`, modelled as three function values;
  - `CodeGenField.Parse`, which copies the declared kinds and resolves the type against the registry or leaves a placeholder;
  - `CodeGenEnum.Parse`, which builds the node and registers it;
  - `CodeGenParseContext`, modelled as a registry `map`, a map-entry test given as a function value, and a lookup.
- Several details of `CodeGenField`, `CodeGenEnum`, `ConditionalKind` and `RepeatedKind` are assumptions, because their source is not part of this model:
  - `ConditionalKind` has exactly the values `Always`, `NonDefault` and `FieldPresence`.
  - `RepeatedKind` has exactly the values `Single`, `List` and `Dictionary`.
  - `Access` has exactly the values `Public` and `Internal`.
  - A field is repeated exactly when its repetition kind is not `Single` (`Field.IsRepeated`).
  - A field's presence slot is an optional natural number that starts out absent (`Field.fieldPresenceIndex`).
  - `Field.Parse` takes the field's name from the naming policy, copies the descriptor's name, number, repetition and presence kinds, and types the field by a registry lookup or else a placeholder.
  - `ParseEnum` builds the enum node from the naming policy, the schema name, the package, the prefix and the values, and registers it under the enum's fully-qualified name.
- CodeGen.Message.Parse: the registry is a map, so the model states which names a parse registers as a set, not the order in which they are registered. Order is stated where it matters for field types: each nested type's parse starts once the names of the types before it are registered.
- An unresolved placeholder is not an error: the second pass leaves the field's type unchanged (`CodeGenMessage.cs:91-94`), and `FixedUp` keeps the placeholder.
- CodeGen.ParseContext.Register: registering a name twice is a precondition, not a modelled error. Parse asks for names that are new to the registry (`FreshNames`), since the context's behaviour on a duplicate is not part of this model.
- CodeGen.ParseContext.AddMapEntry: that a recognised map entry is recorded under its own fully-qualified name as a map-entry node is an assumption about the context, which is not part of this model.
- CodeGen.Message.FixupPlaceholders: requires the message's field nodes to be distinct objects. Parse always builds them so (`FieldsFrom`), but a list that holds one field object twice is not modelled.
- The lazily allocated lists behind `Messages`, `Enums` and `Fields` are modelled as sequences that are always present. `ShouldSerialize*` gives the same answer for a missing list as for an empty one.
- The public setters of `Name`, `OriginalName`, `Package`, `IsDeprecated`, `IsValueType` and `Access` are plain assignments. They are modelled as writable fields, with no method of their own.
- `[DefaultValue]` attributes are serializer metadata, not behaviour.
- `nextTrackingIndex` is a 32-bit `int` in the source. The model counts with unbounded naturals, so overflow past 2^31 - 1 presence fields is not modelled.
- Enum values (`EnumValueDescriptorProto`) are carried as data. Their own parsing is not part of this model.
- `string.IsNullOrWhiteSpace` is modelled over `char` with .NET's white-space set. A null package cannot occur in the model.
- Descriptor trees are finite datatypes, so the recursion always terminates. Cyclic descriptor graphs cannot be expressed.
