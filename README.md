# lectern configuration tree, modelled in Dafny

lectern binds the fields of a Java configuration class to a tree of nodes
that is read from, and written to, a YAML file. This project models the
engine at the centre of that library:

- the node tree of `lectern-core`. A `SectionNode` holds an
  insertion-ordered map from keys to children. `ValueNode`s carry a type,
  a default, a current value, validators and a change callback. `getNode`,
  `get` and `set` walk dot-separated paths. `load` overlays a parsed
  document, `clear` empties a section and `asString` renders the tree.
- `Node.path()` and `Node.root()`.
- the `Size` and `Max` validators and the `SILENT` / `EXCEPTION`
  invalid-key presets.
- the binder in `BaseConfig`: `init`, `save` and `reload`, and the three
  walks over a class's fields. One builds the node schema, one pushes field
  values into the nodes, and one pulls node values back into the fields.
- the `reloadOrSave` / `reloadAndSave` dispatch of `Reloadable`.
- the key conversion `camelCaseToHyphenSnakeCase` and `emptyToNull`.
- the older tree of the `lectern` module (`SectionNode`,
  `RootSectionNode`, `SectionNodeImpl`, `ValueNodeImpl`). It has a
  stricter `set`, a `load` that rejects every unknown key, unvalidated
  value writes, a varargs `get`/`set`, and `values(includeSections)`.

## How the model is built

Java objects are referred to by identity, so the nodes live in an arena, a
map from identities to node values. A parent's identity is always smaller
than its children's, which makes the tree acyclic and makes every walk
terminate. A section keeps its children both as a map and as the key order
of its `LinkedHashMap`.

Each operation is a function on the arena: `SectionNodes`, `ValueNodes`,
`Binder`, `Legacy`. The classes `ConfigTree.Tree`,
`LegacyTree.RootSection` and `BaseConfigs.Config` hold the same state in
mutable fields and update it in place. Every method of those classes,
including the loops of `load`, `asString`, `path()`, `root()` and
`values()`, is proved to leave exactly the state, and return exactly the
result, that the function gives. The properties the library promises are
proved about the functions.

A parsed document is a `Value`, and an object node is `MapV`, a sequence of
key/value entries in the parser's order. A Jackson `ObjectNode` or a Java
`Map` holds a key at most once, but the sequence may repeat one. `load`
then applies every occurrence in turn, so the last occurrence wins. The
load lemmas therefore speak of the last entry with a key, which on any
document the parser produces is the only one.

A Java exception is an `Err` of the `Errors.Error` kinds. The bound object
is `Obj`: a map from field paths to values, plus the set of section fields
that hold null. A change callback is data (`Callback.SetField`) saying
which field of which object it writes. The YAML/Jackson codec enters as
function parameters: `encode(key, value)` gives the dump of `{key: value}`,
and `decode(type, node)` gives the conversion of a parsed node. Whether the
file exists, and the document parsed from it, are parameters too.

## Model

| member | source | states |
|---|---|---|
| Values.LongValue | lectern-core/src/main/java/me/machinemaker/lectern/annotations/validations/numbers/Max.java:46 | `Number.longValue()`: integer and long values are kept exactly; floating values land in the long range. |
| Values.TruncateTowardZero | lectern-core/src/main/java/me/machinemaker/lectern/annotations/validations/numbers/Max.java:46 | The integer part of a real, rounded toward zero (the Java narrowing of a double to long): it lies within one of the real, on the side of zero. |
| Values.Saturate | lectern-core/src/main/java/me/machinemaker/lectern/annotations/validations/numbers/Max.java:46 | Clamping to [Long.MIN_VALUE, Long.MAX_VALUE] always lands in that range and keeps in-range numbers. |
| Values.FieldAssign | lectern-core/src/main/java/me/machinemaker/lectern/BaseConfig.java:187 | `Field.set` with a node value. A primitive field accepts exactly the boxes that unbox and widen to its primitive, and receives a value of its primitive with the same truth value or the same number. A reference field accepts exactly null and instances of its class, and receives the value unchanged. |
| Values.Widen | lectern-core/src/main/java/me/machinemaker/lectern/BaseConfig.java:187 | The widening that `Field.set` applies to a boxed primitive produces a value of the target primitive that keeps the number, or the boolean, it was given. |
| StringUtils.ConversionLength | lectern-core/src/main/java/me/machinemaker/lectern/utils/StringUtils.java:44-47 | The converted key is as long as the input plus the number of `[A-Z]` letters directly preceded by `[a-z]`. |
| StringUtils.ConversionAt | lectern-core/src/main/java/me/machinemaker/lectern/utils/StringUtils.java:32-47 | Each input character appears at its shifted position: after a lower-case letter, an upper-case letter becomes "-" and its lower-case form; every other character is kept, in order. |
| StringUtils.NoBoundaryUnchanged | lectern-core/src/main/java/me/machinemaker/lectern/utils/StringUtils.java:44-47 | An input with no lower-to-upper boundary is returned unchanged. |
| StringUtils.ConversionStep | lectern-core/src/main/java/me/machinemaker/lectern/utils/StringUtils.java:32 | The lookbehind reads the original input: converting one more character appends exactly that character's piece. |
| StringUtils.NotIdempotent | src/main/java/me/machinemaker/lectern/utils/StringUtils.java:32 | "aBC" becomes "a-bC", and converting again gives "a-b-c", so the conversion is not idempotent. |
| StringUtils.CoreExamples | lectern-core/src/test/java/me/machinemaker/lectern/utils/StringUtilsTest.java:32-33 | "helloThereBuddy" becomes "hello-there-buddy", and "i'mOverHereNow" becomes "i'm-over-here-now". |
| StringUtils.LegacyExample | src/test/java/me/machinemaker/lectern/CamelCaseToHyphenSnakeTest.java:29-30 | "addActionBar" becomes "add-action-bar". |
| StringUtils.EmptyToNull | lectern-core/src/main/java/me/machinemaker/lectern/utils/StringUtils.java:56-61 | The result is null exactly when the input is null or blank; otherwise it is the input itself. The legacy copy is src/main/java/me/machinemaker/lectern/utils/StringUtils.java:49-55. |
| StringUtils.EmptyToNullExamples | lectern-core/src/test/java/me/machinemaker/lectern/utils/StringUtilsTest.java:38-40 | "" and "  " give null; "HEY" gives itself. |
| Validators.SizeValidate | lectern-core/src/main/java/me/machinemaker/lectern/annotations/validations/Size.java:53-65 | Passes exactly when the value is a string whose length in UTF-16 code units, or a collection whose size, is strictly between min and max; otherwise it raises the size message and never returns false. |
| Validators.Utf16Length | lectern-core/src/main/java/me/machinemaker/lectern/annotations/validations/Size.java:55-56 | `CharSequence.length()` counts code units: at least one and at most two per character, exactly one per character when all lie in the Basic Multilingual Plane, and more than the character count when one does not. |
| Validators.SizeCountsCodeUnits | lectern-core/src/main/java/me/machinemaker/lectern/annotations/validations/Size.java:55-56 | One emoji has length 2, so it is within `@Size(min = 1, max = 3)` and two emoji are not. |
| Validators.MaxValidate | lectern-core/src/main/java/me/machinemaker/lectern/annotations/validations/numbers/Max.java:45-50 | Never returns false. A number passes exactly when its long value is at most the bound, and otherwise raises the maximum message. Null dereferences, and a non-number fails the cast. |
| Validators.AnnotationValidatorsNeverFail | lectern-core/src/main/java/me/machinemaker/lectern/annotations/validations/numbers/Max.java:45-50 | Neither Size nor Max ever answers a plain "false": each accepts or raises. |
| Validators.DefaultSizeRejectsEmpty | lectern-core/src/main/java/me/machinemaker/lectern/annotations/validations/Size.java:43-48 | Under the defaults min 0 and max Long.MAX_VALUE, the empty string and the empty list are rejected. |
| Validators.SizeRejectsOtherClasses | lectern-core/src/main/java/me/machinemaker/lectern/annotations/validations/Size.java:54-64 | A value that is neither a string nor a collection always raises. |
| Validators.SizeMaxThree | lectern-yaml/src/test/java/me/machinemaker/lectern/YamlObjectConfigTest.java:61-72 | With max 3, a list of 4 elements is rejected and a list of 2 passes. |
| Validators.MaxAtAndAboveBound | lectern-core/src/main/java/me/machinemaker/lectern/annotations/validations/numbers/Max.java:46-49 | A value equal to the bound passes; bound + 1 raises the maximum message for that value. |
| InvalidKeyHandler.HandleInvalidKey | lectern-core/src/main/java/me/machinemaker/lectern/contexts/InvalidKeyHandler.java:30-42 | SILENT returns normally exactly when the policy is SILENT; EXCEPTION always throws InvalidKeyException carrying the offending key. |
| Reloadable.CheckInit | lectern-core/src/main/java/me/machinemaker/lectern/Reloadable.java:85-90 | Returns the file exactly when there is one; otherwise ConfigNotInitializedException. |
| Reloadable.ReloadOrSavePlan | lectern-core/src/main/java/me/machinemaker/lectern/Reloadable.java:58-65 | Uninitialised: the exception and no step. Initialised: exactly one step, which is reload exactly when the file exists. |
| Reloadable.ReloadAndSavePlan | lectern-core/src/main/java/me/machinemaker/lectern/Reloadable.java:72-78 | Uninitialised: the exception and no step. Initialised: the steps end with save, and include reload exactly when the file exists, as [reload, save]. |
| Reloadable.PlansAgreeWithoutFile | lectern-core/src/main/java/me/machinemaker/lectern/Reloadable.java:58-78 | When the file is missing, both helpers only save. |
| Reloadable.ReloadAndSaveExtends | lectern-core/src/main/java/me/machinemaker/lectern/Reloadable.java:58-78 | When the file exists, `reloadAndSave` is `reloadOrSave` followed by a save. |
| Text.Lines | lectern-core/src/main/java/me/machinemaker/lectern/ValueNode.java:121 | `String.lines()`: no line contains a terminator, and only the empty string has no lines. |
| Text.IndentLines | lectern-core/src/main/java/me/machinemaker/lectern/ValueNode.java:121 | Every line, and only those lines, gets `indent` spaces in front. |
| Text.LinesOfJoin | lectern-core/src/main/java/me/machinemaker/lectern/ValueNode.java:121 | Splitting lines that were joined with "\n" and given a final "\n" gives the lines back. |
| Nodes.Initial | lectern-core/src/main/java/me/machinemaker/lectern/ConfigurationNode.java:40-46 | A new configuration is a well-formed tree whose only node is the root ConfigurationNode, with key "" and no children. |
| Nodes.PathSegments | lectern-core/src/main/java/me/machinemaker/lectern/Node.java:72-80 | The keys of the non-root ancestors, from the top down, always end with the node's own key. |
| Nodes.PathOfTopLevel | lectern-core/src/main/java/me/machinemaker/lectern/Node.java:72-80 | `path()` is the key itself when the parent is null or the root. |
| Nodes.PathOfNested | lectern-core/src/main/java/me/machinemaker/lectern/Node.java:73-78 | For a deeper node, `path()` is the parent's path, then ".", then the key. |
| Nodes.RootFrom | lectern-core/src/main/java/me/machinemaker/lectern/Node.java:88-95 | The nearest ConfigurationNode on the ancestor chain: it is an ancestor, no nearer ancestor is one, and none exists when the result is empty. |
| Nodes.RootOf | lectern-core/src/main/java/me/machinemaker/lectern/Node.java:88-97 | `root()` is the nearest proper ancestor that is a ConfigurationNode. With no parent it throws NullPointerException; with no ConfigurationNode on the chain it throws IllegalStateException. |
| Nodes.WithDescription | lectern-core/src/main/java/me/machinemaker/lectern/Node.java:59-61 | The description setter changes only the description; key, parent, children and value fields stay. |
| Nodes.ReplacePreserves | lectern-core/src/main/java/me/machinemaker/lectern/Node.java:32-34 | Replacing a node by one with the same key, parent and children keeps the tree well formed. |
| ValueNodes.NewValueNode | lectern-core/src/main/java/me/machinemaker/lectern/ValueNode.java:56-62 | A new value node's current value equals its default; it has no validators and a callback that does nothing. |
| ValueNodes.Screen | lectern-core/src/main/java/me/machinemaker/lectern/ValueNode.java:83 | `allMatch` over the validators passes exactly when every validator accepts; otherwise it reports the first verdict that did not pass. |
| ValueNodes.IsValid | lectern-core/src/main/java/me/machinemaker/lectern/ValueNode.java:80-89 | True exactly when every validator accepts. False on a rejection or a cast failure. A ValidationException becomes IllegalArgumentException with the message. |
| ValueNodes.NoValidatorsAcceptAll | lectern-core/src/main/java/me/machinemaker/lectern/ValueNode.java:83 | With no validators, every value is valid. |
| ValueNodes.Fire | lectern-core/src/main/java/me/machinemaker/lectern/BaseConfig.java:136 | The callback assigns the field of the bound object, or of a detached instance; it fails exactly when `Field.set` refuses the value. |
| ValueNodes.StoreValue | lectern-core/src/main/java/me/machinemaker/lectern/ValueNode.java:94 | Storing changes the one node's value and nothing else in the tree. |
| ValueNodes.WriteValue | lectern-core/src/main/java/me/machinemaker/lectern/ValueNode.java:91-112 | `value(v)`/`setValue(v)` succeed exactly when `v` is valid and the callback accepts it; then the callback runs and `v` is stored. On an invalid value, IllegalArgumentException, with tree and object unchanged. |
| ValueNodes.WriteKeepsDefault | lectern-core/src/main/java/me/machinemaker/lectern/ValueNode.java:40 | A write never changes the default value, type, key or parent. |
| ValueNodes.WriteThenRead | lectern-core/src/main/java/me/machinemaker/lectern/ValueNode.java:91-102 | After a successful write, `value()` returns the written value. |
| ValueNodes.NullValueRendersEmpty | lectern-core/src/main/java/me/machinemaker/lectern/ValueNode.java:116-123 | A null value renders as "". |
| ValueNodes.ValueTextLines | lectern-core/src/main/java/me/machinemaker/lectern/ValueNode.java:116-121 | A non-null value renders as text ending in "\n", whose lines are the lines of the commented dump with `indent` spaces in front. |
| ValueNodes.DescriptionIsFirstLine | lectern-core/src/main/java/me/machinemaker/lectern/ValueNode.java:118-121 | With a description, the first line is the indented comment: comment character, space, description. |
| SectionNodes.PutChild | lectern-core/src/main/java/me/machinemaker/lectern/SectionNode.java:173-176 | `children.put`: the key maps to the new child; a new key is appended to the order, and a present key keeps its place. |
| SectionNodes.Put | lectern-core/src/main/java/me/machinemaker/lectern/SectionNode.java:163-176 | Attaching a new node keeps the tree well formed. It allocates one identity, rebinds the key in the section and changes no other node. |
| SectionNodes.Clear | lectern-core/src/main/java/me/machinemaker/lectern/SectionNode.java:318-320 | `clear()` leaves the section with no children and changes no other node. |
| SectionNodes.SplitPath | lectern-core/src/main/java/me/machinemaker/lectern/SectionNode.java:222 | `path.split("\\.")` of a path without dots is that one segment. |
| SectionNodes.DropTrailingEmpty | lectern-core/src/main/java/me/machinemaker/lectern/SectionNode.java:222 | `split` drops exactly the trailing empty segments. |
| SectionNodes.SplitPathExamples | lectern-core/src/main/java/me/machinemaker/lectern/SectionNode.java:222 | "a.b" gives [a, b], "key" gives [key], "" gives [""], and "." gives no segments. |
| SectionNodes.GetNode | lectern-core/src/main/java/me/machinemaker/lectern/SectionNode.java:221-231 | An empty segment list is out of bounds and an absent first key gives null. A single present key gives its child. Otherwise the lookup descends, with ClassCastException through a value node. |
| SectionNodes.Get | lectern-core/src/main/java/me/machinemaker/lectern/SectionNode.java:241-251 | Null when `getNode` finds nothing; a value node's current value (null when it holds null); the section itself for a section. |
| SectionNodes.Set | lectern-core/src/main/java/me/machinemaker/lectern/SectionNode.java:288-307 | Keeps the tree well formed, removes no node and keeps every node's key, parent and kind; nodes allocated before the section are untouched. On success it returns a value node now holding the value. |
| SectionNodes.Load | lectern-core/src/main/java/me/machinemaker/lectern/SectionNode.java:322-343 | Keeps the tree well formed and of the same shape; only values change. What it writes is stated by `SectionNodeProperties.LoadWritesMentionedValue`, what it keeps by `LoadKeepsUnmentionedKey` and `LoadIsSparse`. |
| SectionNodes.AddSection | lectern-core/src/main/java/me/machinemaker/lectern/SectionNode.java:197-201 | Keeps the tree well formed and adds exactly one node, a new empty section with the key, description and parent, put under the key in the section's map; no other node changes. |
| SectionNodes.AddValue | lectern-core/src/main/java/me/machinemaker/lectern/SectionNode.java:163-165 | Keeps the tree well formed and adds exactly one node, a new value node holding the value as default and current value, put under the key in the section's map; no other node changes. |
| SectionNodeProperties.InsertionOrder | lectern-core/src/main/java/me/machinemaker/lectern/SectionNode.java:173-176 | Keys added as b, a, c are kept in that order. Re-adding a rebinds it to the new node without moving it, so there is one child per key. |
| SectionNodeProperties.AddSectionAttaches | lectern-core/src/main/java/me/machinemaker/lectern/SectionNode.java:184-201 | `addSection(k, d)` attaches a new empty section under `k`, with this section as its parent and `d` as its description, and `getNode(k)` finds it. |
| SectionNodeProperties.ClearEmpties | lectern-core/src/main/java/me/machinemaker/lectern/SectionNode.java:318-320 | After `clear()`, every lookup from the section finds nothing. |
| SectionNodeProperties.SetIntoEmpty | lectern-core/src/main/java/me/machinemaker/lectern/SectionNode.java:288-307 | Any non-empty path set below an empty section succeeds and runs no callback. |
| SectionNodeProperties.SetFailureChangesNothing | lectern-core/src/main/java/me/machinemaker/lectern/SectionNode.java:288-307 | A `set` that throws leaves tree and object exactly as they were. |
| SectionNodeProperties.SetThenGet | lectern-core/src/main/java/me/machinemaker/lectern/SectionNode.java:291-297 | After a successful `set` along a path of absent keys, value nodes and sections, `getNode(path)` finds the returned node and `get(path)` returns the value. |
| SectionNodeProperties.SetWritesThroughValueNode | lectern-core/src/main/java/me/machinemaker/lectern/SectionNode.java:301-304 | When the first key names a value node, `set` is that node's validated write. It returns the same node, and no node is created or replaced. |
| SectionNodeProperties.SetSingleSegmentDescends | lectern-core/src/main/java/me/machinemaker/lectern/SectionNode.java:298-300 | A single key naming a section recurses into it with the same key, creating `key.key`. |
| SectionNodeProperties.SetCreatesWithDefault | lectern-core/src/main/java/me/machinemaker/lectern/SectionNode.java:293-295 | An absent last key gets a new value node whose default and current value are the set value. |
| SectionNodeProperties.PathBase | lectern-core/src/main/java/me/machinemaker/lectern/Node.java:72-80 | The root section a node's path starts from: a root above the node. |
| SectionNodeProperties.PathRoundTrip | lectern-core/src/main/java/me/machinemaker/lectern/Node.java:72-80 | Looking up a node's path segments from the root it hangs under finds the node itself. |
| SectionNodeProperties.LoadIsSparse | lectern-core/src/main/java/me/machinemaker/lectern/SectionNode.java:322-324 | `load` changes no node outside the set its entries reach. |
| SectionNodeProperties.LoadKeepsUnmentionedKey | lectern-core/src/main/java/me/machinemaker/lectern/SectionNode.java:322-343 | A child whose key the document never mentions keeps its node, value included. |
| SectionNodeProperties.LoadWritesMentionedValue | lectern-core/src/main/java/me/machinemaker/lectern/SectionNode.java:327-339 | After a load that succeeds, a value child whose key the document mentions holds the value the codec decodes from the last entry with that key (so that decoding succeeded), whatever it held before. |
| SectionNodeProperties.LoadEntriesStep | lectern-core/src/main/java/me/machinemaker/lectern/SectionNode.java:324-340 | An entry of a load that goes on leaves a well-formed tree of the same shape, from which the remaining entries are loaded. |
| SectionNodeProperties.TargetsBelow | lectern-core/src/main/java/me/machinemaker/lectern/SectionNode.java:327-340 | Every node a load can reach lies strictly under the loaded section. |
| SectionNodeProperties.LoadIgnoresNonObject | lectern-core/src/main/java/me/machinemaker/lectern/SectionNode.java:323 | A document that is not an object changes nothing and succeeds. |
| SectionNodeProperties.DefaultPolicyRejectsUnknownKey | lectern-yaml/src/test/java/me/machinemaker/lectern/YamlConfigurationTest.java:57-60 | Under the default EXCEPTION policy, an unknown first key throws InvalidKeyException for that key, before anything is written. |
| SectionNodeProperties.SilentIgnoresUnknownKeys | lectern-core/src/main/java/me/machinemaker/lectern/contexts/InvalidKeyHandler.java:31-35 | Under SILENT, a document of unknown keys loads successfully, with no effect and no new nodes. |
| SectionNodeProperties.RenderAppendsNewChild | lectern-core/src/main/java/me/machinemaker/lectern/SectionNode.java:346-360 | A value child added under a new key renders after everything the section rendered before. |
| SectionNodeProperties.ClearedRendersEmpty | lectern-core/src/main/java/me/machinemaker/lectern/SectionNode.java:346-360 | A cleared section renders as "". |
| SectionNodeProperties.SectionChildLayout | lectern-core/src/main/java/me/machinemaker/lectern/SectionNode.java:350-356 | A child section renders its `key:` line, then its own children indented one more step. |
| SectionNodeProperties.RenderKeysSnoc | lectern-core/src/main/java/me/machinemaker/lectern/SectionNode.java:348-358 | Rendering one more key appends exactly that child's text. |
| ConfigTree.Tree.constructor | lectern-core/src/main/java/me/machinemaker/lectern/ConfigurationNode.java:40-46 | The new tree is the initial configuration, with the node's policy, codec and layout. |
| ConfigTree.Tree.AddValue | lectern-core/src/main/java/me/machinemaker/lectern/SectionNode.java:163-165 | The new state is `SectionNodes.AddValue` of the old one; returns the new node. |
| ConfigTree.Tree.AddSection | lectern-core/src/main/java/me/machinemaker/lectern/SectionNode.java:197-201 | The new state is `SectionNodes.AddSection` of the old one; returns the new section. |
| ConfigTree.Tree.Clear | lectern-core/src/main/java/me/machinemaker/lectern/SectionNode.java:318-320 | The new state is `SectionNodes.Clear` of the old one. |
| ConfigTree.Tree.WriteValue | lectern-core/src/main/java/me/machinemaker/lectern/ValueNode.java:91-112 | Result, tree and object are those of `ValueNodes.WriteValue`. |
| ConfigTree.Tree.SetValidators | lectern-core/src/main/java/me/machinemaker/lectern/ValueNode.java:72-74 | Only the node's validator list changes, to the given list. |
| ConfigTree.Tree.SetCallback | lectern-core/src/main/java/me/machinemaker/lectern/BaseConfig.java:136 | Only the node's callback changes. |
| ConfigTree.Tree.SetDescription | lectern-core/src/main/java/me/machinemaker/lectern/Node.java:59-61 | Only the node's description changes. |
| ConfigTree.Tree.Set | lectern-core/src/main/java/me/machinemaker/lectern/SectionNode.java:288-307 | Result, tree and object are those of `SectionNodes.Set`. |
| ConfigTree.Tree.Path | lectern-core/src/main/java/me/machinemaker/lectern/Node.java:72-80 | The loop that inserts ancestor keys builds exactly `PathOf`. |
| ConfigTree.Tree.Root | lectern-core/src/main/java/me/machinemaker/lectern/Node.java:88-97 | The do-while loop returns exactly `RootOf`. |
| ConfigTree.Tree.Load | lectern-core/src/main/java/me/machinemaker/lectern/SectionNode.java:322-343 | The loop over the entries leaves the result, tree and object of `SectionNodes.Load`. |
| ConfigTree.Tree.AsString | lectern-core/src/main/java/me/machinemaker/lectern/SectionNode.java:346-360 | The StringBuilder loop produces exactly `Render`. |
| ConfigTree.Tree.Save | lectern-core/src/main/java/me/machinemaker/lectern/ConfigurationNode.java:53-64 | The text written is the root rendered at indent 0. |
| ConfigTree.Tree.Reload | lectern-core/src/main/java/me/machinemaker/lectern/ConfigurationNode.java:66-73 | The root loads the parsed document. |
| Binder.Install | lectern-core/src/main/java/me/machinemaker/lectern/BaseConfig.java:136-142 | Installs callback, description and validators on the one node; nothing else changes. |
| Binder.Schema | lectern-core/src/main/java/me/machinemaker/lectern/BaseConfig.java:120-131 | Building the schema keeps the tree well formed, removes no node and keeps every node's identity; what it builds is stated by SchemaOfValueFields and SchemaOfSectionField. |
| Binder.SchemaOfValueFields | lectern-core/src/main/java/me/machinemaker/lectern/BaseConfig.java:120-143 | For distinct dot-free value fields, schema building succeeds. Each key then holds, in declaration order, a value node with the field's value as default and current value, plus the field's callback, description and validators; the section keeps its description and no other node changes. |
| Binder.SchemaOfSectionField | lectern-core/src/main/java/me/machinemaker/lectern/BaseConfig.java:124-126 | A section field becomes a new section under its key with the field's description, holding the schema of a new instance of its class (of distinct dot-free value fields), whose fields hold their initial values, with callbacks into that detached instance; the enclosing section keeps what `addSection` made of it, and the walk continues with the next field. |
| Binder.FreshHoldsInitial | lectern-core/src/main/java/me/machinemaker/lectern/BaseConfig.java:126 | The instance `getOrCreateInstance` creates holds each of its value fields' initial values. |
| Binder.Push | lectern-core/src/main/java/me/machinemaker/lectern/BaseConfig.java:197-218 | The push keeps the tree well formed and of the same shape; only values change. What it writes is stated by PushFillsValueNode. |
| Binder.PushFillsValueNode | lectern-core/src/main/java/me/machinemaker/lectern/BaseConfig.java:197-218 | On the schema of distinct dot-free value fields, after a successful push the node under each field's key holds the value the field holds in the object pushed, whatever the object held when the schema was built. |
| Binder.PushThenPull | lectern-core/src/main/java/me/machinemaker/lectern/BaseConfig.java:145-218 | Push then pull on the same tree: when the pull succeeds, each value field holds what `setFieldValue` makes of the value it had before the push. |
| Binder.Pull | lectern-core/src/main/java/me/machinemaker/lectern/BaseConfig.java:145-168 | The pull never changes the tree. |
| Binder.PullConversions | lectern-core/src/main/java/me/machinemaker/lectern/BaseConfig.java:172-187 | A Double goes into a `float` field as a Float and an Integer into a `long` field as a Long. Neither conversion applies to any other field type, and null is refused by a primitive field. |
| Binder.PullFillsValueField | lectern-core/src/main/java/me/machinemaker/lectern/BaseConfig.java:160-195 | After a successful pull, every value field holds the converted value of the node under its key. |
| Binder.PullFrame | lectern-core/src/main/java/me/machinemaker/lectern/BaseConfig.java:145-168 | The pull writes nothing outside the fields under its prefix. |
| Binder.LookupFailures | lectern-core/src/main/java/me/machinemaker/lectern/BaseConfig.java:148-216 | Push and pull both throw IllegalStateException when a key has no node, or when the node's kind does not match the field. |
| Binder.PushRejectsInvalidValue | lectern-core/src/main/java/me/machinemaker/lectern/BaseConfig.java:211-212 | An invalid in-memory field value makes the push throw, with tree and object unchanged. |
| Binder.PushThroughNullSection | lectern-core/src/main/java/me/machinemaker/lectern/BaseConfig.java:204-206 | A section field holding null makes the push throw NullPointerException. |
| Binder.SaveOutcome | lectern-core/src/main/java/me/machinemaker/lectern/BaseConfig.java:60-67 | `save()` keeps the tree well formed and of the same shape: push, then the rendering of the root. |
| Binder.SaveReflectsFields | lectern-core/src/main/java/me/machinemaker/lectern/BaseConfig.java:60-67 | A successful save on the top-level schema of distinct dot-free value fields returns the rendering of a tree whose node under each field's key holds that field's current value. |
| Binder.ReloadOutcome | lectern-core/src/main/java/me/machinemaker/lectern/BaseConfig.java:69-76 | `reload()` keeps the tree well formed and of the same shape: load, then pull. The fields it refreshes are stated by `Binder.ReloadFillsMentionedField`. |
| Binder.ReloadFillsMentionedField | lectern-core/src/main/java/me/machinemaker/lectern/BaseConfig.java:69-76 | After a reload that succeeds, a top-level value field whose key the document mentions holds what `setFieldValue` makes of the value decoded from the last entry with that key. |
| BaseConfigs.InitOutcome | lectern-core/src/main/java/me/machinemaker/lectern/BaseConfig.java:92-105 | After the schema, `init` reloads when the file exists and otherwise saves: the text written exists exactly when the file did not. |
| BaseConfigs.SchemaWalk | lectern-core/src/main/java/me/machinemaker/lectern/BaseConfig.java:120-131 | The loop over the fields leaves exactly `Binder.Schema`. |
| BaseConfigs.PushWalk | lectern-core/src/main/java/me/machinemaker/lectern/BaseConfig.java:197-218 | The loop leaves exactly `Binder.Push`. |
| BaseConfigs.PullWalk | lectern-core/src/main/java/me/machinemaker/lectern/BaseConfig.java:145-168 | The loop leaves exactly `Binder.Pull`, with the tree unchanged. |
| BaseConfigs.Config.constructor | lectern-core/src/main/java/me/machinemaker/lectern/BaseConfig.java:53-58 | A new configuration object has no root node and no file. |
| BaseConfigs.Config.RootNode | lectern-core/src/main/java/me/machinemaker/lectern/BaseConfig.java:53-58 | Throws ConfigNotInitializedException exactly before `init`. |
| BaseConfigs.Config.Save | lectern-core/src/main/java/me/machinemaker/lectern/BaseConfig.java:60-67 | Before `init` it throws and changes nothing; afterwards it leaves `SaveOutcome`. |
| BaseConfigs.Config.Reload | lectern-core/src/main/java/me/machinemaker/lectern/BaseConfig.java:69-76 | Before `init` it throws and changes nothing; afterwards it leaves `ReloadOutcome`. |
| BaseConfigs.Config.Init | lectern-core/src/main/java/me/machinemaker/lectern/BaseConfig.java:78-106 | Sets root node and file, then leaves `InitOutcome`. |
| BaseConfigs.Config.ReloadOrSave | lectern-core/src/main/java/me/machinemaker/lectern/Reloadable.java:58-65 | Runs exactly the steps of `ReloadOrSavePlan`. |
| BaseConfigs.Config.ReloadAndSave | lectern-core/src/main/java/me/machinemaker/lectern/Reloadable.java:72-78 | Runs exactly the steps of `ReloadAndSavePlan`. |
| Legacy.NewRoot | src/main/java/me/machinemaker/lectern/SectionNode.java:356-372 | `RootSectionNode(header)` has key "", is its own parent and has no children. Its description is null exactly when the header is null or blank. |
| Legacy.OwnParentIsRoot | src/main/java/me/machinemaker/lectern/SectionNode.java:374-377 | A node is its own parent exactly when it is the root, the one node for which `isRoot` holds. |
| Legacy.NewValue | src/main/java/me/machinemaker/lectern/ValueNodeImpl.java:37-42 | A new value node holds the given value, and its description is null exactly when the one given is null or blank. |
| Legacy.NewSection | src/main/java/me/machinemaker/lectern/SectionNode.java:58-63 | A new section is empty and has its description normalised through `emptyToNull`. |
| Legacy.PutChild | src/main/java/me/machinemaker/lectern/SectionNode.java:103-105 | `children.put`: the key maps to the child; a new key goes last in the order. |
| Legacy.AddChild | src/main/java/me/machinemaker/lectern/SectionNode.java:116-134 | Attaches a new value node under the key; no other node changes. |
| Legacy.AddSection | src/main/java/me/machinemaker/lectern/SectionNode.java:143-174 | Attaches a new empty section under the key and returns it; no other node changes. |
| Legacy.StoreValue | src/main/java/me/machinemaker/lectern/ValueNodeImpl.java:61-63 | `value(Object)` overwrites the value, unvalidated; nothing else changes. |
| Legacy.Redescribe | src/main/java/me/machinemaker/lectern/SectionNode.java:83-86 | The section setter replaces only the description, with no normalisation. |
| Legacy.SetterKeepsBlank | src/main/java/me/machinemaker/lectern/SectionNode.java:61-86 | A blank description survives the setter, where a constructor stores null. |
| Legacy.GetNode | src/main/java/me/machinemaker/lectern/SectionNode.java:197-207 | An empty segment list is out of bounds and an absent first key gives null; a found node lies under the section. |
| Legacy.Get | src/main/java/me/machinemaker/lectern/SectionNode.java:253-263 | Null for no node, a value node's value, or the section itself; fails exactly when `getNode` does. |
| Legacy.Set | src/main/java/me/machinemaker/lectern/SectionNode.java:218-242 | Only adds nodes, and a failure changes nothing. On success it returns a value node holding the value. Below an empty section it always succeeds. |
| Legacy.Load | src/main/java/me/machinemaker/lectern/SectionNode.java:266-283 | Keeps the tree well formed and of the same shape; only values change. What it stores is stated by `Legacy.LoadStoresMentionedValue`, what it keeps by `Legacy.LoadKeepsUnmentioned` and `Legacy.LoadFrame`. |
| Legacy.LoadNullable | src/main/java/me/machinemaker/lectern/SectionNode.java:266-267 | `load(null)` does nothing; a map is loaded. |
| Legacy.ValuesOf | src/main/java/me/machinemaker/lectern/SectionNode.java:339-350 | Contains a value child's key exactly, and a section child's key exactly when sections are included. It maps each to the value or the section. |
| Legacy.ValueText | src/main/java/me/machinemaker/lectern/ValueNodeImpl.java:72-79 | Throws NullPointerException exactly when the value is null (`Map.of`). |
| Legacy.ValueTextLayout | src/main/java/me/machinemaker/lectern/ValueNodeImpl.java:72-79 | With a description, the text ends in "\n". Its lines are the indented "# description" line and then the indented lines of the dump. |
| Legacy.VarSet | src/main/java/me/machinemaker/lectern/SectionNodeImpl.java:106-115 | The varargs `set` never adds or removes nodes; at most one value changes. |
| Legacy.VarSetEffects | src/main/java/me/machinemaker/lectern/SectionNodeImpl.java:106-115 | An absent first key throws NullPointerException. A single key naming a value node overwrites it, after which the varargs `get` returns the value. A longer path changes nothing. |
| Legacy.LoadFrame | src/main/java/me/machinemaker/lectern/SectionNode.java:266-283 | `load` changes no node outside the loaded section's subtree. |
| Legacy.LoadKeepsUnmentioned | src/main/java/me/machinemaker/lectern/SectionNode.java:268-281 | A child whose key the map never mentions keeps its node and value. |
| Legacy.LoadStoresMentionedValue | src/main/java/me/machinemaker/lectern/SectionNode.java:268-281 | After a load that succeeds, a value child whose key the map mentions holds the value of the last entry with that key, whatever it held before. |
| Legacy.LoadEntriesStep | src/main/java/me/machinemaker/lectern/SectionNode.java:268-281 | An entry of a load that goes on leaves a well-formed tree of the same shape, from which the remaining entries are loaded. |
| Legacy.LoadEntriesStoresHere | src/main/java/me/machinemaker/lectern/SectionNode.java:274-276 | The entry naming a value child stores its value there, leaving the section as it was. |
| Legacy.LoadEntriesRejectsValueOverSection | src/main/java/me/machinemaker/lectern/SectionNode.java:272-279 | An entry that names a section child with a non-map value throws "could not be set as the value" for that value and key, with the tree as it was before the entry. |
| Legacy.LoadOkKnownKeys | src/main/java/me/machinemaker/lectern/SectionNode.java:269-271 | A load that succeeds met only keys the section has. |
| Legacy.LoadRejectsUnknownKey | src/main/java/me/machinemaker/lectern/SectionNode.java:269-271 | A first unknown key throws "not a recognized key" for that key, with nothing written. |
| Legacy.SetThenGetNode | src/main/java/me/machinemaker/lectern/SectionNode.java:218-242 | After a successful `set`, `getNode` of the same path finds the node `set` returned. |
| Legacy.SetThenGet | src/main/java/me/machinemaker/lectern/SectionNode.java:218-263 | After a successful `set(path, v)`, `get(path)` returns `v`. |
| Legacy.VarGetAgreesWithGet | src/main/java/me/machinemaker/lectern/SectionNodeImpl.java:90-103 | The varargs `get` agrees with `get`, except where a missing section along a longer path makes it throw NullPointerException and `get` returns null. |
| Legacy.RenderKeysFailsOnNull | src/main/java/me/machinemaker/lectern/SectionNodeImpl.java:136-150 | Rendering keys that include a value child holding null throws NullPointerException. |
| Legacy.RenderFailsOnNull | src/main/java/me/machinemaker/lectern/SectionNodeImpl.java:136-150 | `asString` of a section with a null-valued child throws NullPointerException. |
| LegacyTree.RootSection.constructor | src/main/java/me/machinemaker/lectern/SectionNode.java:356-372 | The new state is `NewRoot(header)`. |
| LegacyTree.RootSection.AddChild | src/main/java/me/machinemaker/lectern/SectionNode.java:116-134 | The new state is `Legacy.AddChild` of the old one. |
| LegacyTree.RootSection.AddSection | src/main/java/me/machinemaker/lectern/SectionNode.java:143-174 | The new state is `Legacy.AddSection` of the old one; returns the new section. |
| LegacyTree.RootSection.WriteValue | src/main/java/me/machinemaker/lectern/ValueNodeImpl.java:61-63 | The new state is `StoreValue` of the old one. |
| LegacyTree.RootSection.SetDescription | src/main/java/me/machinemaker/lectern/SectionNode.java:83-86 | The new state is `Redescribe` of the old one. |
| LegacyTree.RootSection.Set | src/main/java/me/machinemaker/lectern/SectionNode.java:218-242 | Result and new state are those of `Legacy.Set`. |
| LegacyTree.RootSection.Load | src/main/java/me/machinemaker/lectern/SectionNodeImpl.java:118-133 | The loop over the entries leaves the result and state of `Legacy.Load`. |
| LegacyTree.RootSection.VarSet | src/main/java/me/machinemaker/lectern/SectionNodeImpl.java:106-115 | Result and new state are those of `Legacy.VarSet`. |
| LegacyTree.RootSection.Values | src/main/java/me/machinemaker/lectern/SectionNode.java:339-350 | The loop builds exactly `ValuesOf`. |
| LegacyTree.RootSection.AsString | src/main/java/me/machinemaker/lectern/SectionNodeImpl.java:136-150 | The StringBuilder loop produces exactly `Legacy.Render`. |

## Left out

- File I/O is not modelled: writing and reading the file, `Files.exists`, and creating directories and the file in `init`. Whether the file exists, and the parsed document, are parameters; `save` returns the text to be written.
- The Jackson and SnakeYAML codec is not modelled. It appears as the `encode` and `decode` parameters, which are uninterpreted functions.
- Reflection and annotations are not modelled: `FieldCollector`, `ConfigField`, `createRootNode`, the configuration supplier, `Lectern.registerConfig` and the builders. They are replaced by the ordered `Binder.Field` descriptors and by `Init`'s parameters. The missing-annotation and no-argument-constructor failures of `init` are therefore not modelled.
- `ConfigField.getOrCreateInstance` is modelled by `Binder.Fresh`: a new instance holding the declared initial values.
- The schema walk installs nested sections' callbacks on that new instance, which is not assigned to the bound object. This is as written in BaseConfig.java:126.
- Binder.SetFieldValue: the retry with `Class.cast` after a failed assignment is modelled as one attempt. Either way the method ends in IllegalStateException, and the retry has no other effect.
- Floating point is not modelled. A `float` holds a real number, and the Double→float narrowing changes only the type tag.
- Values.LongValue: for non-integral numbers, `longValue()` is modelled as rounding toward zero and then clamping to the long range; NaN is not modelled.
- Validators.Check: the validator interface in the source takes two arguments, but the calls pass one. A validator is therefore modelled as Size, Max, or an abstract predicate, given as a table of verdicts.
- `meta()`, `toString()`, exception messages and exception class names are not modelled. Errors are the kinds in `Errors.Error`.
- SectionNodes.Set: the path is given as its segments. Where a section already exists under the last segment, the model descends with that segment again. The source descends with the text after the first dot instead. For a path written with a trailing dot (`set("a.", …)` with a section `a`), the source then sets the empty key `""` inside `a`, while the model sets `a` inside `a`. Paths with a trailing dot are not otherwise modelled.
- Binder.Schema: what the schema builds is proved for a class of distinct dot-free value fields, and for one section field whose class has such fields. A class mixing section fields with value fields is covered only by the shape guarantee (well formed, no node removed), and deeper nesting is not proved.
- Binder.SaveOutcome: the save-then-reload round trip through the file is proved only as push-then-pull on the same tree (Binder.PushThenPull). A round trip through the text needs the codec's `encode` and `decode` to be inverse, and the codec is a parameter.
- Binder.ReloadOutcome: what a reload writes into the fields is proved for a top-level value field with a dot-free key whose node is a child of the root (Binder.ReloadFillsMentionedField). For fields of nested sections, the load half is proved by SectionNodeProperties.LoadWritesMentionedValue on the nested section, and the pull half by Binder.PullFillsValueField. They are not joined into one lemma.
- Paths are sequences of segments. `SectionNodes.SplitPath` models `String.split("\\.")`. The legacy `set` and `getNode` recurse on `substring(indexOf('.') + 1)`, which is the same as dropping the first segment.
- The legacy default method `Node.path()` is not modelled. Its loop never advances, so it does not terminate on nodes two or more levels deep.
- The legacy `SectionNode.addChild` and `set` construct a `ValueNode` object, and `asString` calls `asString` on the `ValueNode` interface. Neither compiles as written, because that interface has no constructor and no `asString`. The value nodes are modelled with ValueNodeImpl's constructor, `value(Object)` and `asString`.
- The legacy `LecternConfig` and `LecternConfigImpl` are not modelled, apart from their indentation constant `INDENT = 2`.
- Iteration over a legacy `HashMap` is modelled as insertion order.
- `addSection(key, consumer)` is not modelled: the consumer is a call into caller code. `AddSection` returns the new section, which such a consumer would receive.
- Concurrency is not modelled: the library has none.
