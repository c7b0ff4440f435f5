# Kiota DOM export, modelled in Dafny

Kiota's DOM export service walks the code model that the generator builds
(namespaces, classes, enums, interfaces, properties) and writes one canonical
line per visible property to `kiota-dom-export.txt`. The lines are sorted
ordinally and case-insensitively, so a text diff of two exports shows how the
public surface changed. This project models that component as pure Dafny
functions over an immutable tree and proves what the export promises.

Modules:

- `CodeDom` (`code_dom.dfy`) is the slice of the code model the export reads.
  An `Element` has a kind, a name, an access, and its children. A property's
  kind carries its type reference. A `TypeRef` is either a `CodeType`, which
  may resolve to a `Definition`, or a `ComposedType`, which has only a name.
  `Access` records whether the element is an accessible element and, if so,
  its modifier. The parent back-reference is not stored in the element. The
  walk passes down the chain of ancestor `Scope`s (kind and name, outermost
  first), which is all a path lookup reads of a parent. A resolved type
  definition carries its own ancestor chain.
- `DomExport` (`dom_export.dfy`) holds path resolution (`EntryPath`), the
  entry policy (`Entry`), type formatting (`EntryType`, `TypeInner`) and the
  pre-order walk (`EntriesFromDom`, `ChildrenEntries`), with the lemmas about
  them. `Nodes` enumerates the tree in pre-order and serves as the reference
  the walk is compared against.
- `IgnoreCaseOrder` (`ignore_case_order.dfy`) models ordinal case-insensitive
  comparison: ASCII upper-casing, then ordinal lexicographic comparison. It
  proves this is a total preorder and gives a stable insertion sort that is
  proved sorted and a permutation of its input.
- `DomSnapshot` (`dom_snapshot.dfy`) holds the constructor's check on the
  output directory, the newline join with its split partner, and the content
  written for a root namespace.
- `DomExportExamples` (`dom_export_examples.dfy`) holds worked entries for a
  `Models.User` class.

Two consequences of the code worth knowing:

- `GetEntryPath` recurses into any parent. A class whose parent is neither a
  namespace nor a class, enum or interface therefore gets the path
  `"." + Name`, because that parent's path is empty. `EntryPath` does the
  same.
- A type definition that is a namespace or an `Other` element gives empty
  inner text, through the `_ => string.Empty` branch of `GetEntry`. A
  definition that is a property goes through the property branch instead
  (`TypeInner`).

All members are functions, so the same tree always gives the same content.

## Model

| member | source | states |
|---|---|---|
| `DomExport.Entry` | src/Kiota.Builder/Diff/DomExportService.cs:37-54 | A private element has an empty entry. In top-level mode a non-empty entry comes only from a property with a parent. Every non-private property with a parent has a non-empty entry. A namespace or an `Other` element never has an entry, in either mode. The text of a property's entry is stated by `PropertyEntryFormat`. |
| `DomExport.TypeInner` | src/Kiota.Builder/Diff/DomExportService.cs:61-66 | An unresolved or composed type gives its own name. A type resolved to a class, enum or interface gives that definition's path, or the empty string when the definition is private. A type resolved to a namespace or an `Other` element gives the empty string. |
| `DomExport.ParentPath` | src/Kiota.Builder/Diff/DomExportService.cs:72-75 | The path of the innermost scope of a chain that runs from a namespace through classes, enums and interfaces is the namespace name followed by one `.Name` per type. |
| `DomExport.PropertyEntryFormat` | src/Kiota.Builder/Diff/DomExportService.cs:43-44 | The entry of a non-private property whose parent sits in a namespace through classes, enums and interfaces only is the namespace name, one `.Name` per nested type, `::`, the property name, `:` and the property's type text. |
| `DomExport.EntryType` | src/Kiota.Builder/Diff/DomExportService.cs:56-66 | The type text is the inner text wrapped in exactly one `[`…`]` pair when the type is an array or a complex collection, including when both hold. Otherwise it is the inner text alone. The prefix is empty exactly when the suffix is. |
| `DomExport.EntryPath` | src/Kiota.Builder/Diff/DomExportService.cs:68-77 | A namespace's path is its own name. A class, enum or interface without a parent has the empty path, and so does every other kind. The parented-type case is stated by `PathEndsWithOwnName` and `CanonicalPath`. |
| `DomExport.PathEndsWithOwnName` | src/Kiota.Builder/Diff/DomExportService.cs:72-74 | The path of a parented class, enum or interface ends with a dot followed by its own name. |
| `DomExport.CollectionPrefix` | src/Kiota.Builder/Diff/DomExportService.cs:58 | The prefix is `[` when the type is an array or a complex collection, and empty otherwise. |
| `DomExport.CollectionSuffix` | src/Kiota.Builder/Diff/DomExportService.cs:59 | The suffix is `]` when the type is an array or a complex collection, and empty otherwise. |
| `DomExport.CanonicalPath` | src/Kiota.Builder/Diff/DomExportService.cs:68-77 | A class, enum or interface nested in a namespace through classes, enums and interfaces only has as its path the namespace name followed by `.Name` for each nested type down to the element. The reference for this is the independent definition `DottedNames`. |
| `DomExport.PathStopsAtNamespace` | src/Kiota.Builder/Diff/DomExportService.cs:72-75 | A path lookup stops at the nearest namespace: the ancestors above it do not change any path below it. |
| `DomExport.EntriesFromDom` | src/Kiota.Builder/Diff/DomExportService.cs:29-36 | Every emitted entry is non-empty, and there are at most as many entries as elements in the tree. |
| `DomExport.ChildrenEntries` | src/Kiota.Builder/Diff/DomExportService.cs:33-35 | The entries of a list of children are non-empty, and there are at most as many as elements in their subtrees. |
| `DomExport.PreOrder` | src/Kiota.Builder/Diff/DomExportService.cs:29-36 | The element's own entry comes first. The entries of child `k`'s subtree form one contiguous block, after the earlier children's entries and before the later children's. |
| `DomExport.PrivateHidesOnlyItself` | src/Kiota.Builder/Diff/DomExportService.cs:29-40 | Making an element private removes only its own entry. All entries of its descendants stay, in the same order. |
| `DomExport.EntriesAreVisibleNodes` | src/Kiota.Builder/Diff/DomExportService.cs:29-36 | The walk equals the non-empty top-level entries of all nodes of the tree, taken in pre-order. |
| `DomExport.TopLevelEntriesAreProperties` | src/Kiota.Builder/Diff/DomExportService.cs:29-54 | A string is emitted by the walk if and only if it is the entry of some non-private property with a parent somewhere in the tree. No class, enum, interface, namespace or other element yields a line of its own. |
| `DomExport.EntriesAboveNamespace` | src/Kiota.Builder/Diff/DomExportService.cs:29-44 | The entries of a subtree below a namespace do not depend on the ancestors above that namespace. |
| `DomExport.RootNamespaceParentIrrelevant` | src/Kiota.Builder/Diff/DomExportService.cs:24-36 | The entries of a root namespace's tree are the same whatever the namespace's own ancestors are. Walking it with no ancestors is therefore exact. |
| `DomExport.ChildrenOrderIrrelevant` | src/Kiota.Builder/Diff/DomExportService.cs:33-35 | Two orderings of the same children yield the same multiset of entries. |
| `DomExport.ReplaceChild` | src/Kiota.Builder/Diff/DomExportService.cs:33-35 | Replacing one child by an element whose subtree yields the same multiset of entries leaves the parent's multiset of entries unchanged. |
| `DomExport.ReorderAnywhere` | src/Kiota.Builder/Diff/DomExportService.cs:33-35 | Reordering the children of any node, at any depth, leaves the multiset of the tree's entries unchanged. |
| `DomExport.SiblingOrderIrrelevant` | src/Kiota.Builder/Diff/DomExportService.cs:33-35 | Reordering an element's children leaves the multiset of its tree's entries unchanged. |
| `IgnoreCaseOrder.LessEqTotalPreorder` | src/Kiota.Builder/Diff/DomExportService.cs:24 | The case-insensitive ordinal order is reflexive, total and transitive. |
| `IgnoreCaseOrder.EquivalentIffSameFolded` | src/Kiota.Builder/Diff/DomExportService.cs:24 | Two strings are equivalent under the order if and only if they are equal after case folding. |
| `IgnoreCaseOrder.Insert` | src/Kiota.Builder/Diff/DomExportService.cs:24 | Inserting into a sorted sequence gives a sorted sequence that holds the old elements plus the new one. |
| `IgnoreCaseOrder.SortIgnoreCase` | src/Kiota.Builder/Diff/DomExportService.cs:24 | The result is sorted non-decreasingly under the case-insensitive order and is a permutation of the input. |
| `DomSnapshot.NewDomExportService` | src/Kiota.Builder/Diff/DomExportService.cs:13-17 | Construction succeeds if and only if the output directory path is non-empty, and then keeps that path. Otherwise it fails with an invalid-configuration error. |
| `DomSnapshot.Join` | src/Kiota.Builder/Diff/DomExportService.cs:25 | No lines join to the empty string, and a single line joins to itself. With more than one line, the result is the first line, then the separator, then the join of the rest. `SplitJoin` proves that splitting at a one-character separator undoes it. |
| `DomSnapshot.SerializeDom` | src/Kiota.Builder/Diff/DomExportService.cs:24-25 | The content is empty if and only if the walk yields no entry. `ContentLinesAreSortedEntries` and `EmptyContentIffNoVisibleProperty` state what its lines are, for a one-character newline. |
| `DomSnapshot.SplitJoin` | src/Kiota.Builder/Diff/DomExportService.cs:25 | Joining at least one line with a one-character newline and splitting at that character gives the lines back, provided no line holds the newline. |
| `DomSnapshot.JoinEmptyIff` | src/Kiota.Builder/Diff/DomExportService.cs:25 | A join of non-empty lines is empty if and only if there are no lines. |
| `DomSnapshot.SnapshotLines` | src/Kiota.Builder/Diff/DomExportService.cs:24 | The written lines are sorted case-insensitively, are a permutation of the extracted entries, and are all non-empty. |
| `DomSnapshot.SnapshotLinesAreVisibleProperties` | src/Kiota.Builder/Diff/DomExportService.cs:24 | A string is a written line if and only if it is the entry of a non-private property with a parent in the tree. |
| `DomSnapshot.EmptyContentIffNoVisibleProperty` | src/Kiota.Builder/Diff/DomExportService.cs:24-25 | The content is empty if and only if the tree has no non-private property with a parent. |
| `DomSnapshot.ContentLinesAreSortedEntries` | src/Kiota.Builder/Diff/DomExportService.cs:24-25 | Take a one-character newline that no entry contains. Splitting the content at it gives lines that are sorted and are a permutation of the entries. |
| `DomSnapshot.SnapshotIgnoresSiblingOrder` | src/Kiota.Builder/Diff/DomExportService.cs:24-35 | Reordering the children of any node of the tree leaves the multiset of written lines unchanged. |
| `DomSnapshot.EmptyTreeExample` | src/Kiota.Builder/Diff/DomExportService.cs:24-25 | A namespace with no descendants gives empty content. |
| `DomExportExamples.UserPathExample` | src/Kiota.Builder/Diff/DomExportService.cs:72 | Class `User` in namespace `Models` has the path `Models.User`. |
| `DomExportExamples.UserNameExample` | src/Kiota.Builder/Diff/DomExportService.cs:43-44 | Property `name: string` of `Models.User` has the entry `Models.User::name:string`. |
| `DomExportExamples.AddressArrayExample` | src/Kiota.Builder/Diff/DomExportService.cs:58-63 | An array of class `Models.Address` formats as `[Models.Address]`. |
| `DomExportExamples.AddressesExample` | src/Kiota.Builder/Diff/DomExportService.cs:43-44 | Property `addresses` of `Models.User`, an array of class `Models.Address`, has the entry `Models.User::addresses:[Models.Address]`. |
| `DomExportExamples.PrivateClassExample` | src/Kiota.Builder/Diff/DomExportService.cs:39-44 | A public property of a private class still has an entry through that class's path. A reference to the private class formats as `[]`. |

## Left out

- File creation, `Path.Combine` and the write (lines 22-23 and 27) are I/O. The model stops at the content string (`SerializeDom`). The file name constant `DomExportFileName` and the `DomExportService` record only mirror the service's fields. `SerializeDom` does not take them, because the file path they form is not modelled.
- The UTF-8 encoding (line 26) is a library call. The content is modelled as a string of characters.
- The async boundary and the cancellation token are runtime plumbing.
- `Environment.NewLine` is platform-dependent. It is the `newline` parameter of `SerializeDom`. The lemmas that recover the content's lines (`SplitJoin`, `ContentLinesAreSortedEntries`) hold only for a one-character newline. That covers `"\n"` on Unix but not `"\r\n"` on Windows. For a longer newline only `Join`'s own contract describes the content.
- `ArgumentException.ThrowIfNullOrEmpty` also rejects null. Dafny strings are never null, so only the empty case is modelled.
- The case folding of `OrdinalIgnoreCase` covers all of Unicode. The model folds only ASCII `a`-`z`. Characters are compared by code point. .NET's ordinal comparison works on UTF-16 code units instead. So a character above U+FFFF, stored as a surrogate pair, sorts before U+E000-U+FFFF in the source and after them in the model.
- SortIgnoreCase: the sort of lines (LINQ `Order`) is stable. The model's insertion sort keeps equal elements in input order, but its contract states only sortedness and permutation.
- The code-model classes (`CodeElement.GetChildElements`, `CodeType.TypeDefinition`, `IAccessibleElement`) are replaced by the `Element` datatype. Building the tree is not modelled.
- Methods, indexers, enum members, functions and inheritance (lines 45-49) have no entry format in the source. They are the `Other` kind, which falls into the empty-entry case.
