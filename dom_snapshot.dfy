/**
 * The export service: its output-directory check, and the content it writes
 * for a root namespace (entries sorted case-insensitively and joined with
 * the platform's newline).
 */
module DomSnapshot {
  import opened CodeDom
  import opened DomExport
  import opened IgnoreCaseOrder

  /**
   * Name of the file the content is written to, inside the output
   * directory. It and `DomExportService` mirror the service's fields; the
   * file path they form is not modelled, so `SerializeDom` does not take them.
   */
  const DomExportFileName: string := "kiota-dom-export.txt"

  datatype Result<T, E> = Success(value: T) | Failure(error: E)

  datatype ConfigError = EmptyOutputDirectoryPath

  datatype DomExportService = DomExportService(outputDirectoryPath: string)

  /** The constructor: an empty output directory path is rejected. */
  function NewDomExportService(outputDirectoryPath: string): (r: Result<DomExportService, ConfigError>)
    ensures r.Success? <==> outputDirectoryPath != ""
    ensures r.Success? ==> r.value.outputDirectoryPath == outputDirectoryPath
    ensures r.Failure? ==> r.error == EmptyOutputDirectoryPath
  {
    if outputDirectoryPath == "" then Failure(EmptyOutputDirectoryPath)
    else Success(DomExportService(outputDirectoryPath))
  }

  /** The lines joined with `separator` between consecutive lines. */
  function Join(lines: seq<string>, separator: string): (r: string)
    ensures lines == [] ==> r == ""
    ensures |lines| == 1 ==> r == lines[0]
    ensures |lines| > 0 ==> |r| >= |lines[0]| && r[..|lines[0]|] == lines[0]
    ensures |lines| > 1 ==> r[|lines[0]|..] == separator + Join(lines[1..], separator)
  {
    if |lines| == 0 then ""
    else if |lines| == 1 then lines[0]
    else lines[0] + separator + Join(lines[1..], separator)
  }

  /** Split at every occurrence of `c`; the partner of `Join` with a one-character separator. */
  function SplitOn(s: string, c: char): (r: seq<string>)
    ensures |r| > 0
  {
    if s == [] then [""]
    else
      var rest := SplitOn(s[1..], c);
      if s[0] == c then [""] + rest else [[s[0]] + rest[0]] + rest[1..]
  }

  lemma {:induction false} SplitOnFree(a: string, c: char)
    requires c !in a
    ensures SplitOn(a, c) == [a]
  {
    if a != [] {
      SplitOnFree(a[1..], c);
      assert a == [a[0]] + a[1..];
    }
  }

  lemma {:induction false} SplitOnFirst(a: string, c: char, b: string)
    requires c !in a
    ensures SplitOn(a + [c] + b, c) == [a] + SplitOn(b, c)
  {
    var s := a + [c] + b;
    if a == [] {
      assert s[0] == c && s[1..] == b;
    } else {
      assert s[0] == a[0] && s[1..] == a[1..] + [c] + b;
      SplitOnFirst(a[1..], c, b);
      assert a == [a[0]] + a[1..];
    }
  }

  /**
   * Joining with a one-character separator and splitting at it gives the
   * lines back, when there is at least one line and no line holds the
   * separator.
   */
  lemma {:induction false} SplitJoin(lines: seq<string>, c: char)
    requires |lines| > 0
    requires forall i :: 0 <= i < |lines| ==> c !in lines[i]
    ensures SplitOn(Join(lines, [c]), c) == lines
  {
    if |lines| == 1 {
      SplitOnFree(lines[0], c);
    } else {
      SplitJoin(lines[1..], c);
      SplitOnFirst(lines[0], c, Join(lines[1..], [c]));
      assert lines == [lines[0]] + lines[1..];
    }
  }

  lemma {:induction false} JoinEmptyIff(lines: seq<string>, separator: string)
    requires forall i :: 0 <= i < |lines| ==> lines[i] != ""
    ensures Join(lines, separator) == "" <==> lines == []
  {
    if |lines| > 1 {
      JoinEmptyIff(lines[1..], separator);
    }
  }

  /** The entries of the root namespace's tree, in the order they are written. */
  function SnapshotLines(root: Element): (r: seq<string>)
    ensures Sorted(r)
    ensures multiset(r) == multiset(EntriesFromDom(root, []))
    ensures forall i :: 0 <= i < |r| ==> r[i] != ""
  {
    var entries := EntriesFromDom(root, []);
    var r := SortIgnoreCase(entries);
    assert forall i :: 0 <= i < |r| ==> r[i] in multiset(entries);
    r
  }

  /**
   * The text written to the export file for `root`, before encoding. The
   * output directory and the file name only determine where it is written,
   * which is not modelled.
   */
  function SerializeDom(root: Element, newline: string): (r: string)
    requires root.kind.Namespace?
    ensures r == "" <==> EntriesFromDom(root, []) == []
  {
    var lines := SnapshotLines(root);
    JoinEmptyIff(lines, newline);
    assert |lines| == |multiset(lines)| == |multiset(EntriesFromDom(root, []))| == |EntriesFromDom(root, [])|;
    Join(lines, newline)
  }

  /** Every line of the content is an entry of a visible property of the tree, and conversely. */
  lemma SnapshotLinesAreVisibleProperties(root: Element, s: string)
    ensures s in SnapshotLines(root) <==>
      exists n :: n in Nodes(root, []) && IsVisibleProperty(n) && s == Entry(n.element, n.ancestors, false)
  {
    var entries := EntriesFromDom(root, []);
    assert s in SnapshotLines(root) <==> s in multiset(SnapshotLines(root));
    assert s in entries <==> s in multiset(entries);
    TopLevelEntriesAreProperties(root, [], s);
  }

  /** The content is empty exactly when the tree has no non-private, parented property. */
  lemma EmptyContentIffNoVisibleProperty(root: Element, newline: string)
    requires root.kind.Namespace?
    ensures SerializeDom(root, newline) == "" <==>
      forall n :: n in Nodes(root, []) ==> !IsVisibleProperty(n)
  {
    var lines := SnapshotLines(root);
    JoinEmptyIff(lines, newline);
    if lines != [] {
      SnapshotLinesAreVisibleProperties(root, lines[0]);
    } else {
      forall n | n in Nodes(root, []) && IsVisibleProperty(n) ensures false {
        SnapshotLinesAreVisibleProperties(root, Entry(n.element, n.ancestors, false));
      }
    }
  }

  /**
   * With a one-character newline that no entry contains, the lines of the
   * content are exactly the sorted entries.
   */
  lemma ContentLinesAreSortedEntries(root: Element, nl: char)
    requires root.kind.Namespace?
    requires EntriesFromDom(root, []) != []
    requires forall s :: s in EntriesFromDom(root, []) ==> nl !in s
    ensures var lines := SplitOn(SerializeDom(root, [nl]), nl);
      Sorted(lines) && multiset(lines) == multiset(EntriesFromDom(root, []))
  {
    var entries := EntriesFromDom(root, []);
    var lines := SnapshotLines(root);
    assert |lines| == |multiset(lines)| == |multiset(entries)| == |entries|;
    forall i | 0 <= i < |lines| ensures nl !in lines[i] {
      assert lines[i] in multiset(entries);
    }
    SplitJoin(lines, nl);
  }

  /**
   * Reordering the children of any node of the tree leaves the multiset of
   * written lines unchanged; only their order within equal keys may differ.
   */
  lemma SnapshotIgnoresSiblingOrder(root: Element, path: seq<nat>, reordered: seq<Element>)
    requires ValidPath(root, path)
    requires multiset(reordered) == multiset(NodeAt(root, path).children)
    ensures multiset(SnapshotLines(ReorderAt(root, path, reordered))) == multiset(SnapshotLines(root))
  {
    ReorderAnywhere(root, path, reordered, []);
  }

  // ---------------------------------------------------------------------
  // Worked examples
  // ---------------------------------------------------------------------

  /** A namespace with no descendants gives empty content. */
  lemma EmptyTreeExample(name: string, newline: string)
    ensures SerializeDom(Element(Namespace, name, NotAccessible, []), newline) == ""
  {
  }
}
