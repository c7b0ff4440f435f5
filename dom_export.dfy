/**
 * Entry extraction of the DOM export: path resolution, type formatting,
 * the per-element entry policy and the pre-order walk over the tree.
 */
module DomExport {
  import opened CodeDom

  // ---------------------------------------------------------------------
  // Path resolution
  // ---------------------------------------------------------------------

  /**
   * The dotted path of the element seen as `self`, whose ancestors are
   * `above` (outermost first, the parent last). A parented class, enum or
   * interface extends its parent's path; a namespace is its own name;
   * anything else, and a type without a parent, has the empty path.
   */
  function EntryPath(self: Scope, above: seq<Scope>): (r: string)
    ensures self.kind.Namespace? ==> r == self.name
    ensures !IsTypeKind(self.kind) && !self.kind.Namespace? ==> r == ""
    ensures IsTypeKind(self.kind) && above == [] ==> r == ""
    decreases |above|
  {
    match self.kind
    case Class | Enum | Interface =>
      if |above| > 0 then EntryPath(above[|above| - 1], above[..|above| - 1]) + "." + self.name
      else ""
    case Namespace => self.name
    case _ => ""
  }

  /** The path of a parented class, enum or interface ends with a dot and its own name. */
  lemma PathEndsWithOwnName(self: Scope, above: seq<Scope>)
    requires IsTypeKind(self.kind) && above != []
    ensures var r := EntryPath(self, above);
      |r| > |self.name| && r[|r| - |self.name| - 1..] == "." + self.name
  {
  }

  /** Reference definition of a canonical path: one "." + name per scope, outermost first. */
  function DottedNames(xs: seq<Scope>): string {
    if xs == [] then "" else "." + xs[0].name + DottedNames(xs[1..])
  }

  predicate AllTypeKinds(xs: seq<Scope>) {
    forall i :: 0 <= i < |xs| ==> IsTypeKind(xs[i].kind)
  }

  lemma {:induction false} DottedNamesSnoc(xs: seq<Scope>, y: Scope)
    ensures DottedNames(xs + [y]) == DottedNames(xs) + "." + y.name
  {
    if xs != [] {
      assert (xs + [y])[1..] == xs[1..] + [y];
      DottedNamesSnoc(xs[1..], y);
    }
  }

  /**
   * The canonical path of a class, enum or interface nested in a namespace
   * through classes, enums and interfaces only is the namespace's name
   * followed by the dotted names of the nested types down to the element.
   */
  lemma {:induction false} CanonicalPath(pre: seq<Scope>, ns: Scope, types: seq<Scope>, self: Scope)
    requires ns.kind.Namespace? && AllTypeKinds(types) && IsTypeKind(self.kind)
    ensures EntryPath(self, pre + [ns] + types) == ns.name + DottedNames(types + [self])
    decreases |types|
  {
    var above := pre + [ns] + types;
    DottedNamesSnoc(types, self);
    if types == [] {
      assert above[|above| - 1] == ns && above[..|above| - 1] == pre;
    } else {
      var init := types[..|types| - 1];
      var last := types[|types| - 1];
      assert above[|above| - 1] == last && above[..|above| - 1] == pre + [ns] + init;
      assert IsTypeKind(last.kind) && AllTypeKinds(init);
      assert types == init + [last];
      var parentPath := EntryPath(last, pre + [ns] + init);
      assert EntryPath(self, above) == parentPath + "." + self.name;
      CanonicalPath(pre, ns, init, last);
      DottedNamesSnoc(init, last);
      assert parentPath == ns.name + DottedNames(types);
      assert DottedNames(types + [self]) == DottedNames(types) + "." + self.name;
      assert ns.name + DottedNames(types) + "." + self.name == ns.name + (DottedNames(types) + "." + self.name);
    }
  }

  /** A namespace ends the path lookup: whatever lies above it does not matter. */
  lemma {:induction false} PathStopsAtNamespace(self: Scope, pre1: seq<Scope>, pre2: seq<Scope>, ns: Scope, mid: seq<Scope>)
    requires ns.kind.Namespace?
    ensures EntryPath(self, pre1 + [ns] + mid) == EntryPath(self, pre2 + [ns] + mid)
    decreases |mid|
  {
    var a1, a2 := pre1 + [ns] + mid, pre2 + [ns] + mid;
    if IsTypeKind(self.kind) {
      if mid == [] {
        assert a1[|a1| - 1] == ns && a2[|a2| - 1] == ns;
      } else {
        var init := mid[..|mid| - 1];
        assert a1[|a1| - 1] == mid[|mid| - 1] && a1[..|a1| - 1] == pre1 + [ns] + init;
        assert a2[|a2| - 1] == mid[|mid| - 1] && a2[..|a2| - 1] == pre2 + [ns] + init;
        PathStopsAtNamespace(mid[|mid| - 1], pre1, pre2, ns, init);
      }
    }
  }

  // ---------------------------------------------------------------------
  // Entry policy and type formatting
  // ---------------------------------------------------------------------

  /**
   * The entry of element `e` whose ancestors are `ancestors`. In top-level
   * mode (`includeDefinitions` false) only a non-private property with a
   * parent has an entry; a definition entry for a class, enum or interface
   * is produced only when formatting a type reference.
   */
  function Entry(e: Element, ancestors: seq<Scope>, includeDefinitions: bool): (r: string)
    ensures IsPrivate(e) ==> r == ""
    ensures !includeDefinitions && r != "" ==> e.kind.Property? && |ancestors| > 0
    ensures e.kind.Property? && |ancestors| > 0 && !IsPrivate(e) ==> r != ""
    ensures (e.kind.Namespace? || e.kind.Other?) ==> r == ""
    decreases e, 2
  {
    if IsPrivate(e) then ""
    else
      match e.kind
      case Property(t) =>
        if |ancestors| > 0 then
          EntryPath(ancestors[|ancestors| - 1], ancestors[..|ancestors| - 1]) + "::" + e.name + ":" + EntryType(t)
        else ""
      case Class | Enum | Interface =>
        if includeDefinitions then EntryPath(ScopeOf(e), ancestors) else ""
      case _ => ""
  }

  /** Array and complex-collection types are bracketed. */
  predicate Bracketed(t: TypeRef) {
    t.isArray || t.collectionKind == Complex
  }

  function CollectionPrefix(t: TypeRef): (r: string)
    ensures r == if Bracketed(t) then "[" else ""
  {
    if t.isArray then "[" else if t.collectionKind == Complex then "[" else ""
  }

  function CollectionSuffix(t: TypeRef): (r: string)
    ensures r == if Bracketed(t) then "]" else ""
  {
    if t.isArray then "]" else if t.collectionKind == Complex then "]" else ""
  }

  /**
   * The text between the brackets: the definition entry of a resolved
   * user-defined type, otherwise the reference's own name.
   */
  function TypeInner(t: TypeRef): (r: string)
    ensures (t.ComposedType? || t.typeDefinition.None?) ==> r == t.name
    ensures t.CodeType? && t.typeDefinition.Some? && IsTypeKind(t.typeDefinition.value.element.kind) ==>
      var d := t.typeDefinition.value;
      r == if IsPrivate(d.element) then "" else EntryPath(ScopeOf(d.element), d.ancestors)
    ensures t.CodeType? && t.typeDefinition.Some? ==>
      var k := t.typeDefinition.value.element.kind;
      (k.Namespace? || k.Other?) ==> r == ""
    decreases t, 0
  {
    match t
    case CodeType(name, _, _, def) =>
      if def.Some? then Entry(def.value.element, def.value.ancestors, true) else name
    case ComposedType(name, _, _) => name
  }

  /** The canonical text of a type reference. */
  function EntryType(t: TypeRef): (r: string)
    ensures Bracketed(t) ==> r == "[" + TypeInner(t) + "]"
    ensures !Bracketed(t) ==> r == TypeInner(t)
    ensures (CollectionPrefix(t) == "") <==> (CollectionSuffix(t) == "")
    decreases t, 1
  {
    CollectionPrefix(t) + TypeInner(t) + CollectionSuffix(t)
  }

  /**
   * The path of the innermost scope of a namespace-then-types chain is the
   * namespace's name followed by the dotted names of the types.
   */
  lemma ParentPath(pre: seq<Scope>, ns: Scope, types: seq<Scope>)
    requires ns.kind.Namespace? && AllTypeKinds(types)
    ensures var anc := pre + [ns] + types;
      EntryPath(anc[|anc| - 1], anc[..|anc| - 1]) == ns.name + DottedNames(types)
  {
    var anc := pre + [ns] + types;
    if types == [] {
      assert anc[|anc| - 1] == ns;
    } else {
      var init, last := types[..|types| - 1], types[|types| - 1];
      assert types == init + [last];
      assert anc == (pre + [ns] + init) + [last];
      CanonicalPath(pre, ns, init, last);
    }
  }

  /**
   * The line of a non-private property whose parent is nested in a
   * namespace through classes, enums and interfaces only: the parent's
   * canonical path, `::`, the property's name, `:` and its type text.
   */
  lemma PropertyEntryFormat(pre: seq<Scope>, ns: Scope, types: seq<Scope>, p: Element, t: TypeRef)
    requires ns.kind.Namespace? && AllTypeKinds(types) && p.kind == Property(t) && !IsPrivate(p)
    ensures Entry(p, pre + [ns] + types, false) == ns.name + DottedNames(types) + "::" + p.name + ":" + EntryType(t)
  {
    var anc := pre + [ns] + types;
    ParentPath(pre, ns, types);
    assert Entry(p, anc, false) == EntryPath(anc[|anc| - 1], anc[..|anc| - 1]) + "::" + p.name + ":" + EntryType(t);
  }

  // ---------------------------------------------------------------------
  // The walk
  // ---------------------------------------------------------------------

  /** The element's own contribution to the walk: its entry, unless empty. */
  function OwnEntry(e: Element, ancestors: seq<Scope>): seq<string> {
    var s := Entry(e, ancestors, false);
    if s != "" then [s] else []
  }

  /**
   * The entries of the tree rooted at `e`: its own entry first, then the
   * entries of its children in order, each child seeing `e` as its parent.
   * Children of a private element are visited like any others.
   */
  function EntriesFromDom(e: Element, ancestors: seq<Scope>): (r: seq<string>)
    ensures forall i :: 0 <= i < |r| ==> r[i] != ""
    ensures |r| <= Size(e)
    decreases e, 1
  {
    OwnEntry(e, ancestors) + ChildrenEntries(e.children, ancestors + [ScopeOf(e)])
  }

  function ChildrenEntries(cs: seq<Element>, ancestors: seq<Scope>): (r: seq<string>)
    ensures forall i :: 0 <= i < |r| ==> r[i] != ""
    ensures |r| <= SizeAll(cs)
    decreases cs, 0
  {
    if cs == [] then [] else EntriesFromDom(cs[0], ancestors) + ChildrenEntries(cs[1..], ancestors)
  }

  lemma {:induction false} ChildrenEntriesConcat(xs: seq<Element>, ys: seq<Element>, ancestors: seq<Scope>)
    ensures ChildrenEntries(xs + ys, ancestors) == ChildrenEntries(xs, ancestors) + ChildrenEntries(ys, ancestors)
    decreases |xs|
  {
    if xs != [] {
      assert (xs + ys)[0] == xs[0] && (xs + ys)[1..] == xs[1..] + ys;
      ChildrenEntriesConcat(xs[1..], ys, ancestors);
    } else {
      assert xs + ys == ys;
    }
  }

  lemma ChildrenEntriesAt(cs: seq<Element>, ancestors: seq<Scope>, k: nat)
    requires k < |cs|
    ensures ChildrenEntries(cs, ancestors) ==
      ChildrenEntries(cs[..k], ancestors) + EntriesFromDom(cs[k], ancestors) + ChildrenEntries(cs[k + 1..], ancestors)
  {
    assert cs == cs[..k] + ([cs[k]] + cs[k + 1..]);
    ChildrenEntriesConcat(cs[..k], [cs[k]] + cs[k + 1..], ancestors);
    ChildrenEntriesConcat([cs[k]], cs[k + 1..], ancestors);
    assert ChildrenEntries([cs[k]], ancestors) == EntriesFromDom(cs[k], ancestors) + ChildrenEntries([], ancestors);
  }

  /**
   * Pre-order: the element's own entry comes first; the entries of the
   * subtree of child `k` form one contiguous block after it, preceded by the
   * entries of the earlier children and followed by those of the later ones.
   */
  lemma PreOrder(e: Element, ancestors: seq<Scope>, k: nat)
    requires k < |e.children|
    ensures var anc := ancestors + [ScopeOf(e)];
      EntriesFromDom(e, ancestors) ==
        OwnEntry(e, ancestors) + ChildrenEntries(e.children[..k], anc) +
        EntriesFromDom(e.children[k], anc) + ChildrenEntries(e.children[k + 1..], anc)
  {
    var anc := ancestors + [ScopeOf(e)];
    var cs := e.children;
    ChildrenEntriesAt(cs, anc, k);
    var own, before, here, after := OwnEntry(e, ancestors), ChildrenEntries(cs[..k], anc),
      EntriesFromDom(cs[k], anc), ChildrenEntries(cs[k + 1..], anc);
    calc {
      EntriesFromDom(e, ancestors);
      own + ChildrenEntries(cs, anc);
      own + (before + here + after);
      { SeqAssoc4(own, before, here, after); }
      own + before + here + after;
    }
  }

  lemma SeqAssoc4<T>(a: seq<T>, b: seq<T>, c: seq<T>, d: seq<T>)
    ensures a + (b + c + d) == a + b + c + d
  {
  }

  /**
   * Making an element private removes only its own entry: the entries of
   * its descendants are unchanged, since paths do not look at access.
   */
  lemma PrivateHidesOnlyItself(e: Element, ancestors: seq<Scope>)
    ensures var hidden := e.(access := Accessible(Private));
      EntriesFromDom(hidden, ancestors) == EntriesFromDom(e, ancestors)[|OwnEntry(e, ancestors)|..]
  {
    var hidden := e.(access := Accessible(Private));
    assert ScopeOf(hidden) == ScopeOf(e);
    assert OwnEntry(hidden, ancestors) == [];
  }

  // ---------------------------------------------------------------------
  // The walk as a filter over a pre-order enumeration of the nodes
  // ---------------------------------------------------------------------

  /** An element of the tree together with the scopes of its ancestors. */
  datatype Located = Located(element: Element, ancestors: seq<Scope>)

  /** All elements of the tree rooted at `e`, in pre-order. */
  function Nodes(e: Element, ancestors: seq<Scope>): (r: seq<Located>)
    ensures |r| == Size(e)
    decreases e, 1
  {
    [Located(e, ancestors)] + ChildNodes(e.children, ancestors + [ScopeOf(e)])
  }

  function ChildNodes(cs: seq<Element>, ancestors: seq<Scope>): (r: seq<Located>)
    ensures |r| == SizeAll(cs)
    decreases cs, 0
  {
    if cs == [] then [] else Nodes(cs[0], ancestors) + ChildNodes(cs[1..], ancestors)
  }

  /** A node that contributes an entry at top level. */
  predicate IsVisibleProperty(n: Located) {
    n.element.kind.Property? && |n.ancestors| > 0 && !IsPrivate(n.element)
  }

  function Visible(ns: seq<Located>): seq<string> {
    if ns == [] then [] else OwnEntry(ns[0].element, ns[0].ancestors) + Visible(ns[1..])
  }

  lemma {:induction false} VisibleConcat(xs: seq<Located>, ys: seq<Located>)
    ensures Visible(xs + ys) == Visible(xs) + Visible(ys)
    decreases |xs|
  {
    if xs != [] {
      assert (xs + ys)[0] == xs[0] && (xs + ys)[1..] == xs[1..] + ys;
      VisibleConcat(xs[1..], ys);
    } else {
      assert xs + ys == ys;
    }
  }

  /** The walk emits, in pre-order, the non-empty entries of all nodes of the tree. */
  lemma {:induction false} EntriesAreVisibleNodes(e: Element, ancestors: seq<Scope>)
    ensures EntriesFromDom(e, ancestors) == Visible(Nodes(e, ancestors))
    decreases e, 1
  {
    var anc := ancestors + [ScopeOf(e)];
    ChildrenAreVisibleNodes(e.children, anc);
    VisibleConcat([Located(e, ancestors)], ChildNodes(e.children, anc));
  }

  lemma {:induction false} ChildrenAreVisibleNodes(cs: seq<Element>, ancestors: seq<Scope>)
    ensures ChildrenEntries(cs, ancestors) == Visible(ChildNodes(cs, ancestors))
    decreases cs, 0
  {
    if cs != [] {
      EntriesAreVisibleNodes(cs[0], ancestors);
      ChildrenAreVisibleNodes(cs[1..], ancestors);
      VisibleConcat(Nodes(cs[0], ancestors), ChildNodes(cs[1..], ancestors));
    }
  }

  lemma {:induction false} VisibleMembers(ns: seq<Located>, s: string)
    ensures s in Visible(ns) <==>
      exists n :: n in ns && IsVisibleProperty(n) && s == Entry(n.element, n.ancestors, false)
    decreases |ns|
  {
    if ns != [] {
      VisibleMembers(ns[1..], s);
      assert forall n :: n in ns <==> n == ns[0] || n in ns[1..];
    }
  }

  /**
   * Top-level entries are exactly the entries of the non-private, parented
   * properties of the tree: no class, enum, interface, namespace or other
   * element ever yields a line of its own.
   */
  lemma TopLevelEntriesAreProperties(e: Element, ancestors: seq<Scope>, s: string)
    ensures s in EntriesFromDom(e, ancestors) <==>
      exists n :: n in Nodes(e, ancestors) && IsVisibleProperty(n) && s == Entry(n.element, n.ancestors, false)
  {
    EntriesAreVisibleNodes(e, ancestors);
    VisibleMembers(Nodes(e, ancestors), s);
  }

  // ---------------------------------------------------------------------
  // Independence of what lies above a namespace, and of sibling order
  // ---------------------------------------------------------------------

  lemma EntryAboveNamespace(e: Element, pre1: seq<Scope>, pre2: seq<Scope>, ns: Scope, mid: seq<Scope>)
    requires ns.kind.Namespace?
    ensures Entry(e, pre1 + [ns] + mid, false) == Entry(e, pre2 + [ns] + mid, false)
  {
    var a1, a2 := pre1 + [ns] + mid, pre2 + [ns] + mid;
    if e.kind.Property? && !IsPrivate(e) {
      if mid == [] {
        assert a1[|a1| - 1] == ns && a2[|a2| - 1] == ns;
      } else {
        var init := mid[..|mid| - 1];
        assert a1[|a1| - 1] == mid[|mid| - 1] && a1[..|a1| - 1] == pre1 + [ns] + init;
        assert a2[|a2| - 1] == mid[|mid| - 1] && a2[..|a2| - 1] == pre2 + [ns] + init;
        PathStopsAtNamespace(mid[|mid| - 1], pre1, pre2, ns, init);
      }
    }
  }

  lemma {:induction false} EntriesAboveNamespace(e: Element, pre1: seq<Scope>, pre2: seq<Scope>, ns: Scope, mid: seq<Scope>)
    requires ns.kind.Namespace?
    ensures EntriesFromDom(e, pre1 + [ns] + mid) == EntriesFromDom(e, pre2 + [ns] + mid)
    decreases e, 1
  {
    EntryAboveNamespace(e, pre1, pre2, ns, mid);
    var m := mid + [ScopeOf(e)];
    assert pre1 + [ns] + mid + [ScopeOf(e)] == pre1 + [ns] + m;
    assert pre2 + [ns] + mid + [ScopeOf(e)] == pre2 + [ns] + m;
    ChildrenAboveNamespace(e.children, pre1, pre2, ns, m);
  }

  lemma {:induction false} ChildrenAboveNamespace(cs: seq<Element>, pre1: seq<Scope>, pre2: seq<Scope>, ns: Scope, mid: seq<Scope>)
    requires ns.kind.Namespace?
    ensures ChildrenEntries(cs, pre1 + [ns] + mid) == ChildrenEntries(cs, pre2 + [ns] + mid)
    decreases cs, 0
  {
    if cs != [] {
      EntriesAboveNamespace(cs[0], pre1, pre2, ns, mid);
      ChildrenAboveNamespace(cs[1..], pre1, pre2, ns, mid);
    }
  }

  /**
   * The entries of a namespace's tree do not depend on the namespace's own
   * parent, so walking it as a root (no ancestors) loses nothing.
   */
  lemma RootNamespaceParentIrrelevant(root: Element, ancestors: seq<Scope>)
    requires root.kind.Namespace?
    ensures EntriesFromDom(root, ancestors) == EntriesFromDom(root, [])
  {
    var ns := ScopeOf(root);
    assert OwnEntry(root, ancestors) == [] && OwnEntry(root, []) == [];
    ChildrenAboveNamespace(root.children, ancestors, [], ns, []);
    assert ancestors + [ns] + [] == ancestors + [ns];
    assert [] + [ns] + [] == [] + [ns];
    assert EntriesFromDom(root, ancestors) == ChildrenEntries(root.children, ancestors + [ns]);
    assert EntriesFromDom(root, []) == ChildrenEntries(root.children, [] + [ns]);
  }

  lemma RemoveAt(ys: seq<Element>, k: nat)
    requires k < |ys|
    ensures multiset(ys[..k] + ys[k + 1..]) == multiset(ys) - multiset{ys[k]}
  {
    assert ys == ys[..k] + [ys[k]] + ys[k + 1..];
  }

  lemma {:induction false} ChildrenOrderIrrelevant(xs: seq<Element>, ys: seq<Element>, ancestors: seq<Scope>)
    requires multiset(xs) == multiset(ys)
    ensures multiset(ChildrenEntries(xs, ancestors)) == multiset(ChildrenEntries(ys, ancestors))
    decreases |xs|
  {
    if xs == [] {
      assert |ys| == |multiset(ys)| == 0;
    } else {
      var x := xs[0];
      assert x in multiset(ys);
      var k :| 0 <= k < |ys| && ys[k] == x;
      var rest := ys[..k] + ys[k + 1..];
      RemoveAt(ys, k);
      assert xs == [x] + xs[1..];
      assert multiset(xs[1..]) == multiset(xs) - multiset{x};
      ChildrenOrderIrrelevant(xs[1..], rest, ancestors);
      ChildrenEntriesAt(ys, ancestors, k);
      ChildrenEntriesConcat(ys[..k], ys[k + 1..], ancestors);
      var before, here, after := ChildrenEntries(ys[..k], ancestors), EntriesFromDom(x, ancestors), ChildrenEntries(ys[k + 1..], ancestors);
      calc {
        multiset(ChildrenEntries(xs, ancestors));
        multiset(here + ChildrenEntries(xs[1..], ancestors));
        multiset(here) + multiset(before + after);
        multiset(before) + multiset(here) + multiset(after);
        multiset(before + here + after);
      }
    }
  }

  /**
   * Reordering an element's children does not change which entries the
   * walk yields, only their order.
   */
  lemma SiblingOrderIrrelevant(e: Element, reordered: seq<Element>, ancestors: seq<Scope>)
    requires multiset(reordered) == multiset(e.children)
    ensures multiset(EntriesFromDom(e.(children := reordered), ancestors)) == multiset(EntriesFromDom(e, ancestors))
  {
    var e' := e.(children := reordered);
    assert ScopeOf(e') == ScopeOf(e);
    assert Entry(e', ancestors, false) == Entry(e, ancestors, false);
    ChildrenOrderIrrelevant(reordered, e.children, ancestors + [ScopeOf(e)]);
  }

  /**
   * Replacing one child by an element whose subtree yields the same
   * multiset of entries leaves the multiset of the parent's entries unchanged.
   */
  lemma ReplaceChild(e: Element, k: nat, c: Element, ancestors: seq<Scope>)
    requires k < |e.children|
    requires var anc := ancestors + [ScopeOf(e)];
      multiset(EntriesFromDom(c, anc)) == multiset(EntriesFromDom(e.children[k], anc))
    ensures multiset(EntriesFromDom(e.(children := e.children[k := c]), ancestors)) == multiset(EntriesFromDom(e, ancestors))
  {
    var e' := e.(children := e.children[k := c]);
    var anc := ancestors + [ScopeOf(e)];
    assert ScopeOf(e') == ScopeOf(e);
    assert Entry(e', ancestors, false) == Entry(e, ancestors, false);
    ChildrenEntriesAt(e.children, anc, k);
    ChildrenEntriesAt(e'.children, anc, k);
    assert e'.children[..k] == e.children[..k];
    assert e'.children[k + 1..] == e.children[k + 1..];
  }

  /** A sequence of child indices that leads from `e` to one of its descendants (or `e` itself). */
  predicate ValidPath(e: Element, path: seq<nat>)
    decreases |path|
  {
    path == [] || (path[0] < |e.children| && ValidPath(e.children[path[0]], path[1..]))
  }

  function NodeAt(e: Element, path: seq<nat>): Element
    requires ValidPath(e, path)
    decreases |path|
  {
    if path == [] then e else NodeAt(e.children[path[0]], path[1..])
  }

  /** The tree with the children of the node at `path` replaced by `reordered`. */
  function ReorderAt(e: Element, path: seq<nat>, reordered: seq<Element>): (r: Element)
    requires ValidPath(e, path)
    ensures ScopeOf(r) == ScopeOf(e) && r.access == e.access
    decreases |path|
  {
    if path == [] then e.(children := reordered)
    else e.(children := e.children[path[0] := ReorderAt(e.children[path[0]], path[1..], reordered)])
  }

  /**
   * Reordering the children of any node of the tree, at any depth, leaves
   * the multiset of the tree's entries unchanged.
   */
  lemma {:induction false} ReorderAnywhere(e: Element, path: seq<nat>, reordered: seq<Element>, ancestors: seq<Scope>)
    requires ValidPath(e, path)
    requires multiset(reordered) == multiset(NodeAt(e, path).children)
    ensures multiset(EntriesFromDom(ReorderAt(e, path, reordered), ancestors)) == multiset(EntriesFromDom(e, ancestors))
    decreases |path|
  {
    if path == [] {
      SiblingOrderIrrelevant(e, reordered, ancestors);
    } else {
      var k := path[0];
      var anc := ancestors + [ScopeOf(e)];
      ReorderAnywhere(e.children[k], path[1..], reordered, anc);
      ReplaceChild(e, k, ReorderAt(e.children[k], path[1..], reordered), ancestors);
    }
  }
}
