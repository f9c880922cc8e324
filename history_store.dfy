/**
 * The history store: loading `archive-history.xml` into a map from directory name to
 * last-archived second, and building the document that saving writes back.
 *
 * The XML text itself is handled by a parser and a serializer outside the model; what
 * they hand over is a tree of nodes as `xml.dom.minidom` presents it.
 */
module HistoryStore {
  import opened Wrappers
  import opened TimeFormat

  /** Directory name to the second it was last archived. */
  type History = map<string, int>

  /**
   * A DOM node: its `nodeName` (an element's tag, or `#text`, `#comment`, ... for other
   * nodes), its attributes and its children in document order.
   */
  datatype Node = Node(nodeName: string, attributes: map<string, string>, childNodes: seq<Node>)

  /** What reading the metadata file gives. */
  datatype MetadataFile =
    | Unreadable                    // IOError: the file is absent or cannot be opened
    | Malformed(reason: string)     // ExpatError: the text is not well-formed XML
    | Parsed(childNodes: seq<Node>) // the top-level nodes of the parsed document

  /** The reasons for ExcInvalidFormat. */
  datatype FormatError =
    | InvalidRootElements
    | MissingVersion
    | MissingName(node: Node)
    | MissingLastArchivized(node: Node)
    | InvalidLastArchivized(value: string)
    | InvalidXml(reason: string)

  /** getAttribute: the attribute's value, or the empty string when it is absent. */
  function GetAttribute(n: Node, name: string): string
  {
    if name in n.attributes then n.attributes[name] else ""
  }

  function NameOf(n: Node): string
  {
    GetAttribute(n, "name")
  }

  function LastArchivizedOf(n: Node): string
  {
    GetAttribute(n, "lastArchivized")
  }

  /** Every stored time can be written back as text. */
  predicate TimesInRange(h: History)
  {
    forall k | k in h :: InTimeRange(h[k])
  }

  /** A history that loading can give: times in range and no empty name. */
  predicate ValidHistory(h: History)
  {
    "" !in h && TimesInRange(h)
  }

  /** The children named `directory`, in document order; the others are skipped. */
  function DirectoryNodes(nodes: seq<Node>): (r: seq<Node>)
    ensures |r| <= |nodes|
    ensures forall n | n in r :: n.nodeName == "directory" && n in nodes
    ensures forall n | n in nodes && n.nodeName == "directory" :: n in r
  {
    if nodes == [] then []
    else if nodes[0].nodeName == "directory" then [nodes[0]] + DirectoryNodes(nodes[1..])
    else DirectoryNodes(nodes[1..])
  }

  /** The `directory` children of a document split in two: those of the first part, then those of the second. */
  lemma {:induction false} DirectoryNodesAppend(a: seq<Node>, b: seq<Node>)
    ensures DirectoryNodes(a + b) == DirectoryNodes(a) + DirectoryNodes(b)
    decreases |a|
  {
    if a == [] {
      assert a + b == b;
    } else {
      assert (a + b)[1..] == a[1..] + b;
      DirectoryNodesAppend(a[1..], b);
    }
  }

  /** A single node is kept exactly when it is named `directory`. */
  lemma DirectoryNodesSingle(n: Node)
    ensures DirectoryNodes([n]) == if n.nodeName == "directory" then [n] else []
  {
    assert [n][1..] == [];
  }

  /**
   * get_dir_nodes with assert_root_elements and assert_version: the document must have
   * exactly one top-level node, whose `version` attribute is non-empty.
   */
  function GetDirNodes(roots: seq<Node>): (r: Result<seq<Node>, FormatError>)
    ensures |roots| != 1 ==> r == Err(InvalidRootElements)
    ensures |roots| == 1 && GetAttribute(roots[0], "version") == "" ==> r == Err(MissingVersion)
    ensures r.Ok? <==> |roots| == 1 && GetAttribute(roots[0], "version") != ""
    ensures r.Ok? ==> r.value == DirectoryNodes(roots[0].childNodes)
  {
    if |roots| != 1 then Err(InvalidRootElements)
    else if GetAttribute(roots[0], "version") == "" then Err(MissingVersion)
    else Ok(DirectoryNodes(roots[0].childNodes))
  }

  /**
   * get_last_archivized with assert_last_archivized: the attribute must be present and
   * must read as a real UTC date and time.
   */
  function GetLastArchivized(node: Node): (r: Result<int, FormatError>)
    ensures r.Ok? <==> StrTimeToSec(LastArchivizedOf(node)).Some?
    ensures r.Ok? ==> InTimeRange(r.value) && SecToStrTime(r.value) == LastArchivizedOf(node)
    ensures r.Err? && LastArchivizedOf(node) == "" ==> r.error == MissingLastArchivized(node)
    ensures r.Err? && LastArchivizedOf(node) != "" ==> r.error == InvalidLastArchivized(LastArchivizedOf(node))
  {
    var text := LastArchivizedOf(node);
    if text == "" then Err(MissingLastArchivized(node))
    else match StrTimeToSec(text)
      case None => Err(InvalidLastArchivized(text))
      case Some(t) => StrTimeCanonical(text); Ok(t)
  }

  /** A `directory` element that loads: a name and a readable time. */
  predicate WellFormedDirNode(n: Node)
  {
    NameOf(n) != "" && StrTimeToSec(LastArchivizedOf(n)).Some?
  }

  /** The error that reading an ill-formed `directory` element raises. */
  function DirNodeError(n: Node): FormatError
  {
    if NameOf(n) == "" then MissingName(n)
    else if LastArchivizedOf(n) == "" then MissingLastArchivized(n)
    else InvalidLastArchivized(LastArchivizedOf(n))
  }

  /** parse_dir_node: record one `directory` element, overwriting an earlier entry of that name. */
  function ParseDirNode(node: Node, history: History): (r: Result<History, FormatError>)
    ensures r.Ok? <==> WellFormedDirNode(node)
    ensures r.Err? ==> r.error == DirNodeError(node)
    ensures r.Ok? ==> r.value == history[NameOf(node) := StrTimeToSec(LastArchivizedOf(node)).value]
  {
    var name := NameOf(node);
    if name == "" then Err(MissingName(node))
    else match GetLastArchivized(node)
      case Err(e) => Err(e)
      case Ok(t) => Ok(history[name := t])
  }

  /** The loop of parse_archive_history: read the nodes in order, stop at the first error. */
  function LoadDirNodes(history: History, nodes: seq<Node>): Result<History, FormatError>
    decreases |nodes|
  {
    if nodes == [] then Ok(history)
    else match ParseDirNode(nodes[0], history)
      case Err(e) => Err(e)
      case Ok(h) => LoadDirNodes(h, nodes[1..])
  }

  /** parse_archive_history, as a function of what reading the file gave. */
  function Load(file: MetadataFile): Result<History, FormatError>
  {
    match file
    case Unreadable => Ok(map[])
    case Malformed(reason) => Err(InvalidXml(reason))
    case Parsed(roots) =>
      match GetDirNodes(roots)
      case Err(e) => Err(e)
      case Ok(dirNodes) => LoadDirNodes(map[], dirNodes)
  }

  /**
   * parse_archive_history: an absent file is an empty history, malformed XML and every
   * structural problem are format errors, and each `directory` element is recorded in turn.
   */
  method ParseArchiveHistory(file: MetadataFile) returns (r: Result<History, FormatError>)
    ensures r == Load(file)
    ensures file.Unreadable? ==> r == Ok(map[])
    ensures file.Malformed? ==> r == Err(InvalidXml(file.reason))
  {
    match file {
      case Unreadable =>
        return Ok(map[]);
      case Malformed(reason) =>
        return Err(InvalidXml(reason));
      case Parsed(roots) =>
        var dirNodes := GetDirNodes(roots);
        if dirNodes.Err? {
          return Err(dirNodes.error);
        }
        var nodes := dirNodes.value;
        var result: History := map[];
        var i := 0;
        while i < |nodes|
          invariant 0 <= i <= |nodes|
          invariant LoadDirNodes(result, nodes[i..]) == Load(file)
        {
          LoadDirNodesStep(result, nodes, i);
          var next := ParseDirNode(nodes[i], result);
          if next.Err? {
            return Err(next.error);
          }
          result := next.value;
          i := i + 1;
        }
        return Ok(result);
    }
  }

  /** One turn of the loop: the entry at `i` is read, then the ones after it. */
  lemma LoadDirNodesStep(history: History, nodes: seq<Node>, i: int)
    requires 0 <= i < |nodes|
    ensures var next := ParseDirNode(nodes[i], history);
      && (next.Err? ==> LoadDirNodes(history, nodes[i..]) == Err(next.error))
      && (next.Ok? ==> LoadDirNodes(history, nodes[i..]) == LoadDirNodes(next.value, nodes[i + 1..]))
  {
    assert nodes[i..][0] == nodes[i];
    assert nodes[i..][1..] == nodes[i + 1..];
  }

  // ---- Properties of loading ----------------------------------------------------------

  /** The `name` attributes of the nodes. */
  function NamesOf(nodes: seq<Node>): set<string>
  {
    if nodes == [] then {} else {NameOf(nodes[0])} + NamesOf(nodes[1..])
  }

  lemma {:induction false} NamesOfIndex(nodes: seq<Node>, k: string)
    ensures k in NamesOf(nodes) <==> exists i | 0 <= i < |nodes| :: NameOf(nodes[i]) == k
    decreases |nodes|
  {
    if nodes != [] {
      NamesOfIndex(nodes[1..], k);
      if k in NamesOf(nodes[1..]) {
        var i :| 0 <= i < |nodes[1..]| && NameOf(nodes[1..][i]) == k;
        assert NameOf(nodes[i + 1]) == k;
      }
      if exists i | 0 <= i < |nodes| :: NameOf(nodes[i]) == k {
        var i :| 0 <= i < |nodes| && NameOf(nodes[i]) == k;
        if i > 0 {
          assert NameOf(nodes[1..][i - 1]) == k;
        }
      }
    }
  }

  lemma {:induction false} NamesOfAppend(a: seq<Node>, b: seq<Node>)
    ensures NamesOf(a + b) == NamesOf(a) + NamesOf(b)
    decreases |a|
  {
    if a != [] {
      assert (a + b)[1..] == a[1..] + b;
      NamesOfAppend(a[1..], b);
    } else {
      assert a + b == b;
    }
  }

  /** The nodes load exactly when every one of them is a well-formed `directory` element. */
  lemma {:induction false} LoadDirNodesSucceeds(history: History, nodes: seq<Node>)
    ensures LoadDirNodes(history, nodes).Ok? <==> forall i | 0 <= i < |nodes| :: WellFormedDirNode(nodes[i])
    decreases |nodes|
  {
    if nodes != [] {
      var rest := nodes[1..];
      assert forall i | 1 <= i < |nodes| :: nodes[i] == rest[i - 1];
      if WellFormedDirNode(nodes[0]) {
        var h := ParseDirNode(nodes[0], history).value;
        LoadDirNodesSucceeds(h, rest);
        assert LoadDirNodes(history, nodes) == LoadDirNodes(h, rest);
      }
    }
  }

  /** Loading fails with the error of the first ill-formed node, whatever follows it. */
  lemma {:induction false} LoadDirNodesFirstError(history: History, nodes: seq<Node>, i: int)
    requires 0 <= i < |nodes| && !WellFormedDirNode(nodes[i])
    requires forall j | 0 <= j < i :: WellFormedDirNode(nodes[j])
    ensures LoadDirNodes(history, nodes) == Err(DirNodeError(nodes[i]))
    decreases i
  {
    if i > 0 {
      var rest := nodes[1..];
      assert rest[i - 1] == nodes[i];
      forall j | 0 <= j < i - 1 ensures WellFormedDirNode(rest[j]) {
        assert rest[j] == nodes[j + 1];
      }
      var h := ParseDirNode(nodes[0], history).value;
      LoadDirNodesFirstError(h, rest, i - 1);
      assert LoadDirNodes(history, nodes) == LoadDirNodes(h, rest);
    }
  }

  /**
   * What loading keeps and adds: the keys become the old keys and the nodes' names,
   * entries of other names keep their value, and a valid history stays valid.
   */
  lemma {:induction false} LoadDirNodesKeys(history: History, nodes: seq<Node>)
    requires LoadDirNodes(history, nodes).Ok?
    ensures var h := LoadDirNodes(history, nodes).value;
      && h.Keys == history.Keys + NamesOf(nodes)
      && (forall k | k in history && k !in NamesOf(nodes) :: h[k] == history[k])
      && (ValidHistory(history) ==> ValidHistory(h))
    decreases |nodes|
  {
    if nodes != [] {
      var rest := nodes[1..];
      LoadDirNodesFirst(history, nodes);
      var h1 := ParseDirNode(nodes[0], history).value;
      LoadDirNodesKeys(h1, rest);
    }
  }

  /** Loading entries that load: the first one is well formed, and the rest load from it. */
  lemma LoadDirNodesFirst(history: History, nodes: seq<Node>)
    requires LoadDirNodes(history, nodes).Ok? && nodes != []
    ensures ParseDirNode(nodes[0], history).Ok?
    ensures LoadDirNodes(history, nodes) == LoadDirNodes(ParseDirNode(nodes[0], history).value, nodes[1..])
  {
  }

  /** Node `i` is the last of its name: no later node carries that name. */
  predicate LastOfName(nodes: seq<Node>, i: int)
    requires 0 <= i < |nodes|
  {
    NameOf(nodes[i]) !in NamesOf(nodes[i + 1..])
  }

  /** The entry of a name holds the time of the last node of that name. */
  lemma {:induction false} LoadDirNodesLastWins(history: History, nodes: seq<Node>, i: int)
    requires LoadDirNodes(history, nodes).Ok?
    requires 0 <= i < |nodes| && LastOfName(nodes, i)
    ensures NameOf(nodes[i]) in LoadDirNodes(history, nodes).value
    ensures StrTimeToSec(LastArchivizedOf(nodes[i])) == Some(LoadDirNodes(history, nodes).value[NameOf(nodes[i])])
    decreases i
  {
    var rest := nodes[1..];
    LoadDirNodesFirst(history, nodes);
    var h1 := ParseDirNode(nodes[0], history).value;
    if i == 0 {
      LoadDirNodesKeys(h1, rest);
    } else {
      assert rest[i - 1] == nodes[i] && rest[i..] == nodes[i + 1..];
      LoadDirNodesLastWins(h1, rest, i - 1);
    }
  }

  /** A document loads exactly when it has one root with a version and well-formed entries. */
  predicate WellFormedDocument(roots: seq<Node>)
  {
    && |roots| == 1
    && GetAttribute(roots[0], "version") != ""
    && forall n | n in DirectoryNodes(roots[0].childNodes) :: WellFormedDirNode(n)
  }

  /** Loading a parsed document succeeds if and only if the document is well-formed. */
  lemma LoadSucceedsIff(roots: seq<Node>)
    ensures Load(Parsed(roots)).Ok? <==> WellFormedDocument(roots)
  {
    if |roots| == 1 && GetAttribute(roots[0], "version") != "" {
      var nodes := DirectoryNodes(roots[0].childNodes);
      LoadDirNodesSucceeds(map[], nodes);
      assert (forall n | n in nodes :: WellFormedDirNode(n))
        <==> (forall i | 0 <= i < |nodes| :: WellFormedDirNode(nodes[i]));
    }
  }

  /** A document that fails on an entry fails with the error of its first ill-formed entry. */
  lemma LoadFailsAtFirstBadEntry(roots: seq<Node>, i: int)
    requires |roots| == 1 && GetAttribute(roots[0], "version") != ""
    requires var nodes := DirectoryNodes(roots[0].childNodes);
      0 <= i < |nodes| && !WellFormedDirNode(nodes[i]) && forall j | 0 <= j < i :: WellFormedDirNode(nodes[j])
    ensures Load(Parsed(roots)) == Err(DirNodeError(DirectoryNodes(roots[0].childNodes)[i]))
  {
    LoadDirNodesFirstError(map[], DirectoryNodes(roots[0].childNodes), i);
  }

  /**
   * A loaded history holds exactly the names of the `directory` elements, each with the
   * time of the last element of that name, and every value can be written back as text.
   */
  lemma LoadedContents(roots: seq<Node>, i: int)
    requires Load(Parsed(roots)).Ok?
    requires 0 <= i < |DirectoryNodes(roots[0].childNodes)|
    requires LastOfName(DirectoryNodes(roots[0].childNodes), i)
    ensures var h := Load(Parsed(roots)).value;
      var nodes := DirectoryNodes(roots[0].childNodes);
      && ValidHistory(h)
      && h.Keys == NamesOf(nodes)
      && NameOf(nodes[i]) in h
      && StrTimeToSec(LastArchivizedOf(nodes[i])) == Some(h[NameOf(nodes[i])])
  {
    var nodes := DirectoryNodes(roots[0].childNodes);
    assert Load(Parsed(roots)) == LoadDirNodes(map[], nodes);
    LoadDirNodesKeys(map[], nodes);
    LoadDirNodesLastWins(map[], nodes, i);
  }

  /** Whatever loading gives can be saved and read back: no empty name, every time in range. */
  lemma LoadedValid(file: MetadataFile)
    requires Load(file).Ok?
    ensures ValidHistory(Load(file).value)
  {
    if file.Parsed? {
      var nodes := DirectoryNodes(file.childNodes[0].childNodes);
      assert Load(file) == LoadDirNodes(map[], nodes);
      LoadDirNodesKeys(map[], nodes);
    }
  }

  // ---- Saving -------------------------------------------------------------------------

  /** create_dir_tag: the `directory` element of one entry. */
  function CreateDirTag(name: string, history: History): (r: Node)
    requires name in history && InTimeRange(history[name])
    ensures r.nodeName == "directory" && NameOf(r) == name
    ensures StrTimeToSec(LastArchivizedOf(r)) == Some(history[name])
  {
    StrTimeRoundTrip(history[name]);
    Node("directory", map["name" := name, "lastArchivized" := SecToStrTime(history[name])], [])
  }

  /** No two of the nodes share a name. */
  predicate DistinctNames(nodes: seq<Node>)
  {
    forall i, j | 0 <= i < j < |nodes| :: NameOf(nodes[i]) != NameOf(nodes[j])
  }

  /** Each tag is the `directory` element of its own entry, and no two share a name. */
  predicate EntryTags(tags: seq<Node>, history: History)
    requires TimesInRange(history)
  {
    && (forall i | 0 <= i < |tags| :: NameOf(tags[i]) in history && tags[i] == CreateDirTag(NameOf(tags[i]), history))
    && DistinctNames(tags)
  }

  /** The `directory` elements of a saved history: one per entry, names distinct. */
  predicate DirTagsOf(tags: seq<Node>, history: History)
    requires TimesInRange(history)
  {
    NamesOf(tags) == history.Keys && EntryTags(tags, history)
  }

  /** A name outside the names of the nodes is the name of none of them. */
  lemma NotAmongNames(nodes: seq<Node>, name: string)
    requires name !in NamesOf(nodes)
    ensures forall i | 0 <= i < |nodes| :: NameOf(nodes[i]) != name
  {
    forall i | 0 <= i < |nodes| ensures NameOf(nodes[i]) != name {
      NamesOfIndex(nodes, NameOf(nodes[i]));
    }
  }

  /** A node whose name none of the others carries keeps the names distinct. */
  lemma DistinctNamesAppend(nodes: seq<Node>, n: Node)
    requires DistinctNames(nodes) && forall i | 0 <= i < |nodes| :: NameOf(nodes[i]) != NameOf(n)
    ensures DistinctNames(nodes + [n])
  {
    var nodes' := nodes + [n];
    forall i, j | 0 <= i < j < |nodes'| ensures NameOf(nodes'[i]) != NameOf(nodes'[j]) {
      assert nodes'[i] == nodes[i];
      if j < |nodes| {
        assert nodes'[j] == nodes[j];
      }
    }
  }

  /** Appending the tag of an entry not yet written keeps the tags distinct. */
  lemma EntryTagsAppend(tags: seq<Node>, history: History, name: string)
    requires TimesInRange(history) && EntryTags(tags, history)
    requires name in history && forall i | 0 <= i < |tags| :: NameOf(tags[i]) != name
    ensures EntryTags(tags + [CreateDirTag(name, history)], history)
  {
    var tag := CreateDirTag(name, history);
    var tags' := tags + [tag];
    forall i | 0 <= i < |tags'|
      ensures NameOf(tags'[i]) in history && tags'[i] == CreateDirTag(NameOf(tags'[i]), history)
    {
      if i < |tags| {
        assert tags'[i] == tags[i];
      }
    }
    DistinctNamesAppend(tags, tag);
  }

  /** One step of saving: the tag of an entry not yet written joins the tags. */
  lemma WriteEntryTag(history: History, tags: seq<Node>, rest: set<string>, name: string)
    requires TimesInRange(history) && EntryTags(tags, history)
    requires rest <= history.Keys && NamesOf(tags) == history.Keys - rest && name in rest
    ensures NamesOf(tags + [CreateDirTag(name, history)]) == history.Keys - (rest - {name})
    ensures EntryTags(tags + [CreateDirTag(name, history)], history)
  {
    var tag := CreateDirTag(name, history);
    NotAmongNames(tags, name);
    EntryTagsAppend(tags, history, name);
    NamesOfAppend(tags, [tag]);
    assert NamesOf([tag]) == {name};
  }

  /** The document save_history writes: one `archive` root, version 1, one tag per entry. */
  predicate SavedDocument(roots: seq<Node>, history: History)
    requires TimesInRange(history)
  {
    && |roots| == 1
    && roots[0].nodeName == "archive"
    && roots[0].attributes == map["version" := "1"]
    && DirTagsOf(roots[0].childNodes, history)
  }

  /**
   * save_history: build the document; the entries are visited in the map's own order,
   * which is left open, as a dict's iteration order is.
   */
  method SaveHistory(history: History) returns (roots: seq<Node>)
    requires TimesInRange(history)
    ensures SavedDocument(roots, history)
  {
    var tags: seq<Node> := [];
    var rest := history.Keys;
    while rest != {}
      invariant rest <= history.Keys
      invariant NamesOf(tags) == history.Keys - rest
      invariant EntryTags(tags, history)
      decreases rest
    {
      var name :| name in rest;
      WriteEntryTag(history, tags, rest, name);
      tags := tags + [CreateDirTag(name, history)];
      rest := rest - {name};
    }
    roots := [Node("archive", map["version" := "1"], tags)];
  }

  /** Tags of a saved history are all `directory` elements, so nothing is filtered out. */
  lemma {:induction false} DirectoryNodesOfTags(tags: seq<Node>)
    requires forall i | 0 <= i < |tags| :: tags[i].nodeName == "directory"
    ensures DirectoryNodes(tags) == tags
    decreases |tags|
  {
    if tags != [] {
      DirectoryNodesOfTags(tags[1..]);
    }
  }

  /** Where no two nodes share a name, every node is the last of its name. */
  lemma DistinctNamesLast(nodes: seq<Node>, i: int)
    requires DistinctNames(nodes)
    requires 0 <= i < |nodes|
    ensures LastOfName(nodes, i)
  {
    var later := nodes[i + 1..];
    forall j | 0 <= j < |later| ensures NameOf(later[j]) != NameOf(nodes[i]) {
      assert later[j] == nodes[i + 1 + j];
    }
    NamesOfIndex(later, NameOf(nodes[i]));
  }

  /** Every tag of a saved history is a well-formed `directory` element. */
  lemma DirTagsWellFormed(history: History, tags: seq<Node>)
    requires ValidHistory(history) && DirTagsOf(tags, history)
    ensures forall i | 0 <= i < |tags| :: WellFormedDirNode(tags[i])
  {
    forall i | 0 <= i < |tags| ensures WellFormedDirNode(tags[i]) {
      var tag := CreateDirTag(NameOf(tags[i]), history);
    }
  }

  /** Loading the tags of a saved history gives that history. */
  lemma LoadDirTags(history: History, tags: seq<Node>)
    requires ValidHistory(history) && DirTagsOf(tags, history)
    ensures LoadDirNodes(map[], tags) == Ok(history)
  {
    DirTagsWellFormed(history, tags);
    LoadDirNodesSucceeds(map[], tags);
    LoadedDirTags(history, tags);
  }

  lemma LoadedDirTags(history: History, tags: seq<Node>)
    requires ValidHistory(history) && DirTagsOf(tags, history)
    requires LoadDirNodes(map[], tags).Ok?
    ensures LoadDirNodes(map[], tags).value == history
  {
    LoadDirNodesKeys(map[], tags);
    var h := LoadDirNodes(map[], tags).value;
    assert h.Keys == history.Keys;
    forall k | k in history ensures h[k] == history[k] {
      LoadDirTag(history, tags, k);
    }
    SameEntries(h, history);
  }

  /**
   * Two histories with the same names and the same time for each name are equal. Stated
   * on its own: as an assertion amid the loading facts it costs the solver far more.
   */
  lemma SameEntries(a: History, b: History)
    requires a.Keys == b.Keys && forall k | k in a :: a[k] == b[k]
    ensures a == b
  {
  }

  /** Loading the tags of a saved history gives each name its saved time. */
  lemma LoadDirTag(history: History, tags: seq<Node>, k: string)
    requires ValidHistory(history) && DirTagsOf(tags, history)
    requires LoadDirNodes(map[], tags).Ok? && k in history
    ensures k in LoadDirNodes(map[], tags).value && LoadDirNodes(map[], tags).value[k] == history[k]
  {
    NamesOfIndex(tags, k);
    var i :| 0 <= i < |tags| && NameOf(tags[i]) == k;
    DistinctNamesLast(tags, i);
    LoadDirNodesLastWins(map[], tags, i);
  }

  /**
   * Saving then loading gives the same history back. The document read back may carry
   * any other children besides the `directory` elements (the whitespace text that
   * pretty-printing adds): only the `directory` elements matter.
   */
  lemma SaveLoadRoundTrip(history: History, saved: seq<Node>, reread: seq<Node>)
    requires ValidHistory(history) && SavedDocument(saved, history)
    requires |reread| == 1 && GetAttribute(reread[0], "version") == "1"
    requires DirectoryNodes(reread[0].childNodes) == DirectoryNodes(saved[0].childNodes)
    ensures Load(Parsed(reread)) == Ok(history)
  {
    var tags := saved[0].childNodes;
    DirectoryNodesOfTags(tags);
    assert GetDirNodes(reread) == Ok(tags);
    LoadDirTags(history, tags);
  }
}
