/** The bounded namespace, its index, and the folder question (crates/fs-ntfs/src/scan.rs:82-272). */
module NamespaceIndex {
  import opened Common
  import opened Namespace

  datatype Path = Path(node: Node, namespace: nat, name: seq<U16>, parentPath: seq<seq<U16>>, ancestors: seq<Node>,
                       state: PathState)

  datatype DirectoryNode = DirectoryNode(node: Node, active: bool)

  datatype NamespaceView = NamespaceView(paths: seq<Path>, directories: seq<DirectoryNode>, isComplete: bool)

  datatype Membership = Match | NoMatch | Unknown

  function PathFor(node: Node, complete: bool, name: Name, up: Evidence): Path {
    Path(node, name.namespace, name.text, up.parentPath, up.ancestors,
         MergePathState(up.state, if complete then Exact else Incomplete))
  }

  function PathsFor(node: Node, complete: bool, name: Name, ups: seq<Evidence>): (paths: seq<Path>)
    ensures |paths| == |ups|
    ensures forall i :: 0 <= i < |paths| ==> paths[i] == PathFor(node, complete, name, ups[i])
  {
    seq(|ups|, i requires 0 <= i < |ups| => PathFor(node, complete, name, ups[i]))
  }

  /** The path is one of the record's names over validated evidence. */
  ghost predicate Supported(entries: Entries, path: Path) {
    && path.node.record in entries && path.node.record != ROOT_RECORD
    && entries[path.node.record].sequence == path.node.sequence
    && exists name: Name, up: Evidence :: SupportedBy(entries, path, name, up)
  }

  ghost predicate SupportedBy(entries: Entries, path: Path, name: Name, up: Evidence)
    requires path.node.record in entries
  {
    && name in entries[path.node.record].names && Useful(name)
    && ValidPath(entries, name.parentRecord, name.parentSequence, {path.node.record}, 0, up)
    && path == PathFor(path.node, entries[path.node.record].attributesComplete, name, up)
  }

  /**
   * What a shown state says of the links: complete and active records up to the root, a deleted one among them, a
   * record whose metadata is incomplete or a walk cut short, or no way to the root at all. It is never `Ambiguous`.
   */
  ghost predicate StateMeans(entries: Entries, path: Path) {
    var cut := |path.ancestors| == |path.parentPath| == MAX_PATH_DEPTH;
    && (path.state == Orphaned <==> !Rooted(path.ancestors) && !cut)
    && (path.state == Incomplete <==>
          cut || (Rooted(path.ancestors) && !AllComplete(entries, [path.node] + path.ancestors)))
    && (path.state == Reconstructed <==>
          !cut && Rooted(path.ancestors) && AllComplete(entries, [path.node] + path.ancestors) &&
            !AllInUse(entries, path.ancestors))
    && (path.state == Exact <==>
          !cut && Rooted(path.ancestors) && AllComplete(entries, [path.node] + path.ancestors) &&
            AllInUse(entries, path.ancestors))
    && path.state != Ambiguous
  }

  /** Every path of a view has exactly the state its links deserve, and an orphan a reason. */
  lemma ViewStates(entries: Entries, view: NamespaceView, path: Path)
    requires Describes(entries, view) && path in view.paths
    ensures StateMeans(entries, path)
    ensures path.state.Orphaned? ==> exists name :: OrphanedAbove(entries, path, name)
  {
    assert Supported(entries, path);
    var name: Name, up: Evidence :| SupportedBy(entries, path, name, up);
    var all := [path.node] + path.ancestors;
    assert path.node in all && forall n :: n in all <==> n == path.node || n in path.ancestors;
    assert AllComplete(entries, all) <==>
      AllComplete(entries, path.ancestors) && entries[path.node.record].attributesComplete;
    if path.state.Orphaned? {
      assert OrphanedAbove(entries, path, name);
    }
  }

  /** One of the record's names, above which the walk ends before the root. */
  ghost predicate OrphanedAbove(entries: Entries, path: Path, name: Name) {
    && path.node.record in entries && name in entries[path.node.record].names && Useful(name)
    && name.text == path.name && name.namespace == path.namespace
    && DeadEnd(entries, name.parentRecord, name.parentSequence, {path.node.record},
               Evidence(path.parentPath, path.ancestors, Orphaned))
  }

  ghost predicate AllSupported(entries: Entries, paths: seq<Path>) {
    forall p :: p in paths ==> Supported(entries, p)
  }

  ghost predicate GoodFor(paths: seq<Path>, node: Node) {
    forall p :: p in paths && p.node == node ==> Good(p.state)
  }

  ghost predicate PathCovers(entries: Entries, paths: seq<Path>, node: Node, d: nat) {
    exists p :: p in paths && p.node == node && d in entries && Node(d, entries[d].sequence) in p.ancestors
  }

  ghost predicate NameListed(paths: seq<Path>, node: Node, name: Name) {
    exists p :: p in paths && p.node == node && p.name == name.text && p.namespace == name.namespace
  }

  /** The paths show the directory at the end of every simple chain through the name. */
  ghost predicate ChainsShown(entries: Entries, node: Node, name: Name, paths: seq<Path>) {
    ValidLink(entries, name.parentRecord, name.parentSequence) ==>
      forall chain :: SimpleFrom(entries, chain, name.parentRecord, {node.record}) ==>
        PathCovers(entries, paths, node, chain[|chain| - 1])
  }

  /**
   * The name has a path, its simple chains are shown, and if every path of the node is good, everything reachable
   * through the name is shown, cycles included.
   */
  ghost predicate NameShown(entries: Entries, node: Node, name: Name, paths: seq<Path>) {
    && NameListed(paths, node, name)
    && ChainsShown(entries, node, name, paths)
    && (GoodFor(paths, node) ==>
          ValidLink(entries, name.parentRecord, name.parentSequence) &&
          forall d :: Reaches(entries, name.parentRecord, d) ==> PathCovers(entries, paths, node, d))
  }

  ghost predicate RecordShown(entries: Entries, record: nat, paths: seq<Path>) {
    record in entries && forall n :: n in entries[record].names && Useful(n) ==>
      NameShown(entries, Node(record, entries[record].sequence), n, paths)
  }

  /** What a namespace view promises, whatever the display order of its paths. */
  ghost predicate Describes(entries: Entries, view: NamespaceView) {
    && |view.paths| <= MAX_NAMESPACE_PATHS
    && AllSupported(entries, view.paths)
    && (view.isComplete ==> forall record :: record in entries && record != ROOT_RECORD ==>
          RecordShown(entries, record, view.paths))
  }

  lemma ShownMore(entries: Entries, node: Node, name: Name, a: seq<Path>, b: seq<Path>)
    requires NameShown(entries, node, name, a) && forall p :: p in a ==> p in b
    ensures NameShown(entries, node, name, b)
  {
    assert NameListed(a, node, name);
    assert forall d :: PathCovers(entries, a, node, d) ==> PathCovers(entries, b, node, d);
    if GoodFor(b, node) {
      forall d | Reaches(entries, name.parentRecord, d)
        ensures PathCovers(entries, b, node, d)
      {
        assert PathCovers(entries, a, node, d);
      }
    }
  }

  lemma ExpansionShows(entries: Entries, node: Node, complete: bool, name: Name, ups: seq<Evidence>, paths: seq<Path>)
    requires ups != []
    requires AllGood(ups) ==> Exhaustive(entries, name.parentRecord, name.parentSequence, ups)
    requires ShowsChains(entries, name.parentRecord, name.parentSequence, {node.record}, ups)
    requires forall p :: p in PathsFor(node, complete, name, ups) ==> p in paths
    ensures NameShown(entries, node, name, paths)
  {
    var own := PathsFor(node, complete, name, ups);
    assert own[0] in own && own[0] in paths;
    forall d | Covered(entries, ups, d)
      ensures PathCovers(entries, paths, node, d)
    {
      var i :| 0 <= i < |ups| && d in entries && Node(d, entries[d].sequence) in ups[i].ancestors;
      assert own[i] in own;
    }
    if GoodFor(paths, node) {
      forall i | 0 <= i < |ups|
        ensures Good(ups[i].state)
      {
        assert own[i] in own;
      }
      forall d | Reaches(entries, name.parentRecord, d)
        ensures PathCovers(entries, paths, node, d)
      {
        assert Covered(entries, ups, d);
      }
    }
  }

  function Components(paths: seq<Path>): nat {
    if paths == [] then 0
    else
      var last := paths[|paths| - 1];
      Components(paths[..|paths| - 1]) + |last.parentPath| + |last.ancestors| + 1
  }

  ghost predicate WithinBudgets(paths: seq<Path>, used: nat) {
    |paths| <= MAX_NAMESPACE_PATHS && used == Components(paths) <= MAX_NAMESPACE_COMPONENTS
  }

  const MAX_PATH_COST: nat := 2 * MAX_PATH_DEPTH + 1

  /**
   * A path or component budget is spent, a path reached the depth limit, or one record has a full name's worth of
   * paths.
   */
  ghost predicate BudgetReached(paths: seq<Path>) {
    || |paths| >= MAX_NAMESPACE_PATHS
    || Components(paths) + MAX_PATH_COST > MAX_NAMESPACE_COMPONENTS
    || (exists p :: p in paths && |p.ancestors| == MAX_PATH_DEPTH)
    || (exists k :: FullAt(paths, k))
  }

  ghost predicate FullAt(paths: seq<Path>, k: nat) {
    && k + MAX_NAMESPACE_PATHS_PER_NAME <= |paths|
    && forall j :: k <= j < k + MAX_NAMESPACE_PATHS_PER_NAME ==> paths[j].node == paths[k].node
  }

  lemma {:induction false} ComponentsGrow(a: seq<Path>, b: seq<Path>)
    ensures Components(a) <= Components(a + b)
    decreases |b|
  {
    if b == [] {
      assert a + b == a;
    } else {
      ComponentsGrow(a, b[..|b| - 1]);
      assert (a + b)[..|a + b| - 1] == a + b[..|b| - 1];
    }
  }

  lemma ComponentsSnoc(paths: seq<Path>, last: Path)
    ensures Components(paths + [last]) == Components(paths) + |last.parentPath| + |last.ancestors| + 1
  {
    assert (paths + [last])[..|paths|] == paths;
  }

  lemma BudgetStaysReached(a: seq<Path>, b: seq<Path>)
    requires BudgetReached(a) && a <= b
    ensures BudgetReached(b)
  {
    assert b == a + b[|a|..];
    ComponentsGrow(a, b[|a|..]);
    if k: nat :| FullAt(a, k) {
      assert FullAt(b, k);
    }
  }

  /** An incomplete expansion shows in the paths it leaves. */
  lemma ExpansionBudget(before: seq<Path>, node: Node, complete: bool, name: Name, ups: seq<Evidence>)
    requires Bounded(ups, 0)
    ensures BudgetReached(before + PathsFor(node, complete, name, ups))
  {
    var own := PathsFor(node, complete, name, ups);
    if |ups| >= MAX_NAMESPACE_PATHS_PER_NAME {
      assert FullAt(before + own, |before|);
    } else {
      var i :| 0 <= i < |ups| && |ups[i].ancestors| == MAX_PATH_DEPTH;
      assert own[i] in before + own;
    }
  }

  /** The innermost loop of `build_namespace`. */
  method AddParents(before: seq<Path>, usedBefore: nat, node: Node, complete: bool, name: Name, ups: seq<Evidence>)
    returns (paths: seq<Path>, used: nat, stop: bool)
    requires WithinBudgets(before, usedBefore)
    requires forall u :: u in ups ==> |u.parentPath| + |u.ancestors| + 1 <= MAX_PATH_COST
    ensures WithinBudgets(paths, used) && |before| <= |paths| <= |before| + |ups|
    ensures stop ==> |paths| >= MAX_NAMESPACE_PATHS || used + MAX_PATH_COST > MAX_NAMESPACE_COMPONENTS
    ensures paths == before + PathsFor(node, complete, name, ups)[..|paths| - |before|]
    ensures !stop ==> paths == before + PathsFor(node, complete, name, ups)
  {
    ghost var all := PathsFor(node, complete, name, ups);
    hide Components, PathsFor;
    paths, used, stop := before, usedBefore, false;
    for i := 0 to |ups|
      invariant |paths| == |before| + i && WithinBudgets(paths, used)
      invariant paths == before + all[..i]
    {
      if |paths| >= MAX_NAMESPACE_PATHS {
        return paths, used, true;
      }
      var cost := |ups[i].parentPath| + |ups[i].ancestors| + 1;
      if used + cost > MAX_NAMESPACE_COMPONENTS {
        return paths, used, true;
      }
      used := used + cost;
      ComponentsSnoc(paths, all[i]);
      paths := paths + [PathFor(node, complete, name, ups[i])];
    }
    assert all[..|ups|] == all;
  }

  lemma AddedSupported(entries: Entries, before: seq<Path>, paths: seq<Path>, record: nat, name: Name,
                       ups: seq<Evidence>)
    requires record in entries && record != ROOT_RECORD && name in entries[record].names && Useful(name)
    requires AllSupported(entries, before) && |before| <= |paths| <= |before| + |ups|
    requires ValidPaths(entries, name.parentRecord, name.parentSequence, {record}, 0, ups)
    requires var node, complete := Node(record, entries[record].sequence), entries[record].attributesComplete;
      paths == before + PathsFor(node, complete, name, ups)[..|paths| - |before|]
    ensures AllSupported(entries, paths)
  {
    hide ValidPath;
    forall i | 0 <= i < |paths|
      ensures Supported(entries, paths[i])
    {
      if i < |before| {
        assert before[i] in before;
      } else {
        assert ups[i - |before|] in ups;
        assert SupportedBy(entries, paths[i], name, ups[i - |before|]);
      }
    }
  }

  /** All names of one record. */
  method AddRecord(entries: Entries, record: nat, before: seq<Path>, usedBefore: nat)
    returns (paths: seq<Path>, used: nat, complete: bool, stop: bool)
    requires record in entries && record != ROOT_RECORD
    requires WithinBudgets(before, usedBefore) && AllSupported(entries, before)
    ensures WithinBudgets(paths, used) && AllSupported(entries, paths)
    ensures before <= paths
    ensures !complete ==> BudgetReached(paths)
    ensures complete && !stop ==> RecordShown(entries, record, paths)
    ensures stop ==> !complete
  {
    hide Supported, NameShown, ValidPath, AllGood, Exhaustive, ShowsChains, Bounded, FullAt;
    var entry := entries[record];
    var node := Node(record, entry.sequence);
    var names := UsefulNames(entry.names);
    paths, used, complete, stop := before, usedBefore, true, false;
    for k := 0 to |names|
      invariant WithinBudgets(paths, used) && AllSupported(entries, paths) && !stop
      invariant before <= paths
      invariant !complete ==> BudgetReached(paths)
      invariant complete ==> forall j :: 0 <= j < k ==> NameShown(entries, node, names[j], paths)
    {
      if |paths| >= MAX_NAMESPACE_PATHS {
        return paths, used, false, true;
      }
      assert names[k] in names;
      var ups, expanded := ExpandParentPaths(entries, names[k].parentRecord, names[k].parentSequence, {record}, 0);
      complete := complete && expanded;
      ghost var earlier := paths;
      CostBound(entries, names[k].parentRecord, names[k].parentSequence, {record}, ups);
      paths, used, stop := AddParents(paths, used, node, entry.attributesComplete, names[k], ups);
      AddedSupported(entries, earlier, paths, record, names[k], ups);
      if stop {
        return paths, used, false, true;
      }
      if !expanded {
        ExpansionBudget(earlier, node, entry.attributesComplete, names[k], ups);
      } else if !complete {
        BudgetStaysReached(earlier, paths);
      } else {
        ExpansionShows(entries, node, entry.attributesComplete, names[k], ups, paths);
        AllShownMore(entries, node, names, k, earlier, paths);
      }
    }
    assert forall n :: n in entry.names && Useful(n) ==> n in names;
  }

  lemma CostBound(entries: Entries, record: nat, sequence: U16, visited: set<nat>, ups: seq<Evidence>)
    requires ValidPaths(entries, record, sequence, visited, 0, ups)
    ensures forall u :: u in ups ==> |u.parentPath| + |u.ancestors| + 1 <= MAX_PATH_COST
  {
    forall u | u in ups
      ensures |u.parentPath| + |u.ancestors| + 1 <= MAX_PATH_COST
    {
      assert ValidPath(entries, record, sequence, visited, 0, u);
    }
  }

  lemma AllShownMore(entries: Entries, node: Node, names: seq<Name>, k: nat, a: seq<Path>, b: seq<Path>)
    requires k <= |names| && (forall p :: p in a ==> p in b)
    requires forall j :: 0 <= j < k ==> NameShown(entries, node, names[j], a)
    ensures forall j :: 0 <= j < k ==> NameShown(entries, node, names[j], b)
  {
    hide NameShown;
    forall j | 0 <= j < k
      ensures NameShown(entries, node, names[j], b)
    {
      ShownMore(entries, node, names[j], a, b);
    }
  }

  lemma RecordShownMore(entries: Entries, record: nat, a: seq<Path>, b: seq<Path>)
    requires RecordShown(entries, record, a) && forall p :: p in a ==> p in b
    ensures RecordShown(entries, record, b)
  {
    forall n | n in entries[record].names && Useful(n)
      ensures NameShown(entries, Node(record, entries[record].sequence), n, b)
    {
      ShownMore(entries, Node(record, entries[record].sequence), n, a, b);
    }
  }

  /** Record numbers in ascending order. */
  method SortedRecords(entries: Entries) returns (records: seq<nat>)
    ensures forall r :: r in records <==> r in entries
    ensures forall i, j :: 0 <= i < j < |records| ==> records[i] < records[j]
  {
    records := [];
    var remaining := entries.Keys;
    while remaining != {}
      invariant forall r :: r in entries <==> r in records || r in remaining
      invariant forall i, j :: 0 <= i < j < |records| ==> records[i] < records[j]
      invariant forall i, r :: 0 <= i < |records| && r in remaining ==> records[i] < r
      decreases remaining
    {
      ghost var first := LeastOf(remaining);
      var least :| least in remaining && forall r :: r in remaining ==> least <= r;
      records := records + [least];
      remaining := remaining - {least};
    }
  }

  lemma LeastOf(s: set<nat>) returns (least: nat)
    requires s != {}
    ensures least in s && forall r :: r in s ==> least <= r
    decreases s
  {
    var x :| x in s;
    var lower := set r | r in s && r < x;
    assert forall r :: r in s ==> r in lower || x <= r;
    if lower == {} {
      least := x;
    } else {
      assert x !in lower;
      least := LeastOf(lower);
    }
  }

  /** Every directory record, active or not. */
  function DirectoriesOf(entries: Entries, records: seq<nat>): (directories: seq<DirectoryNode>)
    requires forall r :: r in records ==> r in entries
    ensures forall d :: d in directories <==>
        d.node.record in records && entries[d.node.record].isDirectory &&
        d == DirectoryNode(Node(d.node.record, entries[d.node.record].sequence), entries[d.node.record].inUse)
  {
    if records == [] then []
    else
      var rest, last := DirectoriesOf(entries, records[..|records| - 1]), records[|records| - 1];
      assert records == records[..|records| - 1] + [last];
      if !entries[last].isDirectory then rest
      else rest + [DirectoryNode(Node(last, entries[last].sequence), entries[last].inUse)]
  }

  /** `build_namespace`, up to the display order of the paths. */
  method BuildNamespace(entries: Entries, scanComplete: bool) returns (view: NamespaceView)
    ensures Describes(entries, view)
    ensures view.isComplete ==> scanComplete
    ensures scanComplete && !view.isComplete ==> BudgetReached(view.paths)
    ensures Components(view.paths) <= MAX_NAMESPACE_COMPONENTS
    ensures forall d :: d in view.directories <==>
        d.node.record in entries && entries[d.node.record].isDirectory &&
        d == DirectoryNode(Node(d.node.record, entries[d.node.record].sequence), entries[d.node.record].inUse)
  {
    var records := SortedRecords(entries);
    var directories := DirectoriesOf(entries, records);
    var paths, complete := AddRecords(entries, records, scanComplete);
    view := NamespaceView(paths, directories, complete);
    hide RecordShown, AllSupported, BudgetReached;
  }

  /** The record loop of `build_namespace`. */
  method AddRecords(entries: Entries, records: seq<nat>, scanComplete: bool) returns (paths: seq<Path>, complete: bool)
    requires forall r :: r in records ==> r in entries
    ensures |paths| <= MAX_NAMESPACE_PATHS && Components(paths) <= MAX_NAMESPACE_COMPONENTS
    ensures AllSupported(entries, paths)
    ensures complete ==> scanComplete
    ensures complete ==> forall r :: r in records && r != ROOT_RECORD ==> RecordShown(entries, r, paths)
    ensures scanComplete && !complete ==> BudgetReached(paths)
  {
    var used := 0;
    paths, complete := [], scanComplete;
    hide RecordShown, AllSupported, Supported, BudgetReached, Components;
    for i := 0 to |records|
      invariant WithinBudgets(paths, used) && AllSupported(entries, paths)
      invariant complete ==> scanComplete
      invariant complete ==> forall j :: 0 <= j < i && records[j] != ROOT_RECORD ==>
        RecordShown(entries, records[j], paths)
      invariant scanComplete && !complete ==> BudgetReached(paths)
    {
      assert records[i] in records;
      if records[i] != ROOT_RECORD {
        ghost var earlier := paths;
        var shown, stop;
        paths, used, shown, stop := AddRecord(entries, records[i], paths, used);
        RecordsShownMore(entries, records, i, earlier, paths);
        complete := complete && shown;
        if stop {
          return paths, false;
        }
      }
    }
  }

  lemma RecordsShownMore(entries: Entries, records: seq<nat>, i: nat, a: seq<Path>, b: seq<Path>)
    requires i <= |records| && a <= b
    ensures forall j :: 0 <= j < i && RecordShown(entries, records[j], a) ==> RecordShown(entries, records[j], b)
    ensures BudgetReached(a) ==> BudgetReached(b)
  {
    hide RecordShown, BudgetReached;
    if BudgetReached(a) {
      BudgetStaysReached(a, b);
    }
    forall j | 0 <= j < i && RecordShown(entries, records[j], a)
      ensures RecordShown(entries, records[j], b)
    {
      RecordShownMore(entries, records[j], a, b);
    }
  }

  // ---------- The index and the question ----------

  type Index = map<Node, seq<nat>>

  ghost predicate Indexes(index: Index, paths: seq<Path>, upTo: nat) {
    && (forall node :: node in index ==> forall i :: 0 <= i < |index[node]| ==>
          index[node][i] < upTo <= |paths| && paths[index[node][i]].node == node)
    && (forall k :: 0 <= k < upTo <= |paths| ==> paths[k].node in index && k in index[paths[k].node])
  }

  /** `build_index`: one pass, offsets grouped by node; refused only above the path bound. */
  method BuildIndex(view: NamespaceView) returns (index: Option<Index>)
    ensures index.Some? <==> |view.paths| <= MAX_NAMESPACE_PATHS
    ensures index.Some? ==> Indexes(index.value, view.paths, |view.paths|)
  {
    if |view.paths| > MAX_NAMESPACE_PATHS {
      return None;
    }
    var byNode: Index := map[];
    for offset := 0 to |view.paths|
      invariant Indexes(byNode, view.paths, offset)
    {
      var node := view.paths[offset].node;
      var offsets := if node in byNode then byNode[node] else [];
      byNode := byNode[node := offsets + [offset]];
      assert offset in byNode[node];
    }
    return Some(byNode);
  }

  /** The answer by looking at every path. */
  ghost function Classify(view: NamespaceView, candidate: Node, directory: Node): Membership {
    var found := exists p :: p in view.paths && p.node == candidate;
    if exists p :: p in view.paths && p.node == candidate && directory in p.ancestors then Match
    else if view.isComplete && GoodFor(view.paths, candidate) && found then NoMatch
    else Unknown
  }

  method ClassifyWithIndex(view: NamespaceView, index: Index, candidate: Node, directory: Node)
    returns (answer: Membership)
    requires Indexes(index, view.paths, |view.paths|)
    ensures answer == Classify(view, candidate, directory)
  {
    var offsets := if candidate in index then index[candidate] else [];
    assert forall i :: 0 <= i < |offsets| ==> offsets[i] < |view.paths| && view.paths[offsets[i]].node == candidate;
    assert forall k :: 0 <= k < |view.paths| && view.paths[k].node == candidate ==> k in offsets;
    assert forall i :: 0 <= i < |offsets| ==> view.paths[offsets[i]] in view.paths;
    if exists i :: 0 <= i < |offsets| && directory in view.paths[offsets[i]].ancestors {
      return Match;
    }
    if offsets == [] || !view.isComplete || exists i :: 0 <= i < |offsets| && !Good(view.paths[offsets[i]].state) {
      return Unknown;
    }
    assert view.paths[offsets[0]] in view.paths;
    return NoMatch;
  }

  method ClassifyCandidate(view: NamespaceView, candidate: Node, directory: Node) returns (answer: Membership)
    ensures answer == if |view.paths| <= MAX_NAMESPACE_PATHS then Classify(view, candidate, directory) else Unknown
  {
    var index := BuildIndex(view);
    if index.None? {
      return Unknown;
    }
    answer := ClassifyWithIndex(view, index.value, candidate, directory);
  }

  /** `Match` is never a guess: validated parent links lead from the candidate to the directory of that generation. */
  lemma MatchIsBelow(entries: Entries, view: NamespaceView, candidate: Node, directory: Node)
    requires Describes(entries, view) && Classify(view, candidate, directory) == Match
    ensures candidate.record in entries && entries[candidate.record].sequence == candidate.sequence
    ensures Observed(entries, directory) && Below(entries, candidate.record, directory.record)
    ensures directory.record != candidate.record
  {
    var path :| path in view.paths && path.node == candidate && directory in path.ancestors;
    assert Supported(entries, path);
    var name: Name, up: Evidence :| SupportedBy(entries, path, name, up);
    var i :| 0 <= i < |up.ancestors| && up.ancestors[i] == directory;
    AncestorReached(entries, name.parentRecord, name.parentSequence, {candidate.record}, up, i);
    assert LinksBy(entries, candidate.record, name, name.parentRecord);
  }

  /** Every ancestor is reached from the immediate parent by validated links. */
  lemma {:induction false} AncestorReached(entries: Entries, record: nat, sequence: U16, visited: set<nat>,
                                           path: Evidence, i: nat)
    requires i < |path.ancestors| && ValidPath(entries, record, sequence, visited, 0, path)
    ensures Reaches(entries, record, path.ancestors[i].record)
    decreases |path.ancestors| - i
  {
    if i == |path.ancestors| - 1 {
      ReachesSelf(entries, record);
    } else {
      AncestorReached(entries, record, sequence, visited, path, i + 1);
      assert NamedBy(entries, path, i + 1);
      assert LinksTo(entries, path.ancestors[i + 1].record, path.ancestors[i].record);
      ReachesOn(entries, record, path.ancestors[i + 1].record, path.ancestors[i].record);
    }
  }

  lemma ReachesOn(entries: Entries, from: nat, via: nat, to: nat)
    requires Reaches(entries, from, via) && LinksTo(entries, via, to)
    ensures Reaches(entries, from, to)
  {
    var chain :| Joins(entries, chain, from, via);
    var longer := chain + [to];
    forall i | 0 < i < |longer|
      ensures LinksTo(entries, longer[i - 1], longer[i])
    {
      assert i < |chain| ==> LinksTo(entries, chain[i - 1], chain[i]);
    }
    assert Joins(entries, longer, from, to);
  }

  /** A complete view whose paths for the candidate are all good shows everything above the candidate. */
  lemma BelowIsCovered(entries: Entries, view: NamespaceView, candidate: Node, d: nat)
    requires Describes(entries, view) && view.isComplete && GoodFor(view.paths, candidate)
    requires exists p :: p in view.paths && p.node == candidate
    ensures Below(entries, candidate.record, d) ==> PathCovers(entries, view.paths, candidate, d)
  {
    hide ChainsShown, NameListed, ValidPath, IsChain, LinksTo, Reaches;
    var path :| path in view.paths && path.node == candidate;
    assert Supported(entries, path);
    assert RecordShown(entries, candidate.record, view.paths);
    if Below(entries, candidate.record, d) {
      var name: Name :|
        LinksBy(entries, candidate.record, name, name.parentRecord) && Reaches(entries, name.parentRecord, d);
      assert NameShown(entries, candidate, name, view.paths);
    }
  }

  /** `NoMatch` is never a gap in the evidence: no chain of validated links, however long or cyclic, leads there. */
  lemma NoMatchIsNotBelow(entries: Entries, view: NamespaceView, candidate: Node, directory: Node)
    requires Describes(entries, view) && Classify(view, candidate, directory) == NoMatch
    ensures !(Observed(entries, directory) && Below(entries, candidate.record, directory.record))
  {
    BelowIsCovered(entries, view, candidate, directory.record);
  }

  /** Below is shown by a complete view whatever the states of the paths, except below itself. */
  lemma BelowIsMatched(entries: Entries, view: NamespaceView, candidate: Node, directory: Node)
    requires Describes(entries, view) && view.isComplete && candidate.record != ROOT_RECORD
    requires directory.record != candidate.record
    requires candidate.record in entries && entries[candidate.record].sequence == candidate.sequence
    requires Observed(entries, directory) && Below(entries, candidate.record, directory.record)
    ensures Classify(view, candidate, directory) == Match
  {
    hide Describes, Classify, LinksTo;
    var first: Name :|
      LinksBy(entries, candidate.record, first, first.parentRecord) &&
        Reaches(entries, first.parentRecord, directory.record);
    LinkExists(entries, candidate.record, first, first.parentRecord);
    ReachesFrom(entries, candidate.record, first.parentRecord, directory.record);
    var chain :| Joins(entries, chain, candidate.record, directory.record);
    var simple := SimpleChain(entries, chain);
    SimpleTail(entries, simple, candidate.record, {});
    ShownByChain(entries, view, candidate, simple[1..]);
    CoveredMatches(entries, view, candidate, directory);
  }

  lemma CoveredMatches(entries: Entries, view: NamespaceView, candidate: Node, directory: Node)
    requires Observed(entries, directory) && PathCovers(entries, view.paths, candidate, directory.record)
    ensures Classify(view, candidate, directory) == Match
  {
  }

  lemma LinkExists(entries: Entries, from: nat, name: Name, to: nat)
    requires LinksBy(entries, from, name, to)
    ensures LinksTo(entries, from, to)
  {
  }

  lemma ShownByChain(entries: Entries, view: NamespaceView, candidate: Node, chain: seq<nat>)
    requires Describes(entries, view) && view.isComplete && candidate.record != ROOT_RECORD
    requires candidate.record in entries && entries[candidate.record].sequence == candidate.sequence
    requires chain != [] && LinksTo(entries, candidate.record, chain[0])
    requires SimpleFrom(entries, chain, chain[0], {} + {candidate.record})
    ensures PathCovers(entries, view.paths, candidate, chain[|chain| - 1])
  {
    hide LinksTo, Reaches;
    assert RecordShown(entries, candidate.record, view.paths);
    var name := LinkName(entries, candidate.record, chain[0]);
    assert NameShown(entries, candidate, name, view.paths);
    assert ChainsShown(entries, candidate, name, view.paths);
    assert {} + {candidate.record} == {candidate.record};
  }

  lemma LinkName(entries: Entries, from: nat, to: nat) returns (name: Name)
    requires LinksTo(entries, from, to)
    ensures LinksBy(entries, from, name, to)
  {
    name :| LinksBy(entries, from, name, to);
  }

  /** An answer other than `Unknown` is the truth about the links, in any order of the paths. */
  lemma AnswerIsExact(entries: Entries, view: NamespaceView, reordered: seq<Path>, candidate: Node, directory: Node)
    requires Describes(entries, view) && multiset(reordered) == multiset(view.paths)
    ensures var answer := Classify(view.(paths := reordered), candidate, directory);
      && answer == Classify(view, candidate, directory)
      && (answer != Unknown ==>
            (answer == Match <==> Observed(entries, directory) && Below(entries, candidate.record, directory.record)))
  {
    hide Describes, Below, Observed;
    ReorderedSame(view, reordered, candidate, directory);
    if Classify(view, candidate, directory) == Match {
      MatchIsBelow(entries, view, candidate, directory);
    } else if Classify(view, candidate, directory) == NoMatch {
      NoMatchIsNotBelow(entries, view, candidate, directory);
    }
    hide Classify;
  }

  /**
   * On a complete view the answer is decided by the links alone, whatever the states of the paths: `Match` exactly
   * when the candidate's own generation lies below that generation of another record. A record that a cycle puts
   * below itself is no match.
   */
  lemma CompleteIsExact(entries: Entries, view: NamespaceView, candidate: Node, directory: Node)
    requires Describes(entries, view) && view.isComplete
    ensures Classify(view, candidate, directory) == Match <==>
        && Current(entries, candidate) && Observed(entries, directory)
        && Below(entries, candidate.record, directory.record) && directory.record != candidate.record
  {
    RootIsBelowNothing(entries, directory.record);
    hide Describes, Below, Observed, Classify;
    if Current(entries, candidate) && Observed(entries, directory) &&
      Below(entries, candidate.record, directory.record) &&
       directory.record != candidate.record {
      BelowIsMatched(entries, view, candidate, directory);
    }
    if Classify(view, candidate, directory) == Match {
      MatchIsBelow(entries, view, candidate, directory);
    }
  }

  /** The generation is the one observed, and it has a name that carries paths. */
  ghost predicate Named(entries: Entries, node: Node) {
    && Current(entries, node) && node.record != ROOT_RECORD
    && exists name :: name in entries[node.record].names && Useful(name)
  }

  /** The path reached the root, over nothing but complete records. */
  ghost predicate Trusted(entries: Entries, path: Path) {
    Rooted(path.ancestors) && AllComplete(entries, [path.node] + path.ancestors)
  }

  lemma TrustedIsGood(entries: Entries, view: NamespaceView, path: Path)
    requires Describes(entries, view) && path in view.paths
    ensures Trusted(entries, path) <==> Good(path.state)
  {
    ViewStates(entries, view, path);
    if Rooted(path.ancestors) {
      RootedIsLonger(entries, view, path);
    }
    hide Describes, Rooted, AllComplete, AllInUse;
  }

  lemma RootedIsLonger(entries: Entries, view: NamespaceView, path: Path)
    requires Describes(entries, view) && path in view.paths && Rooted(path.ancestors)
    ensures |path.ancestors| == |path.parentPath| + 1
  {
    assert Supported(entries, path);
    var name: Name, up: Evidence :| SupportedBy(entries, path, name, up);
  }

  lemma NamedIsListed(entries: Entries, view: NamespaceView, node: Node)
    requires Describes(entries, view) && view.isComplete
    ensures Named(entries, node) <==> exists p :: p in view.paths && p.node == node
  {
    hide ValidPath, ChainsShown, Reaches, ValidLink;
    if Named(entries, node) {
      var name :| name in entries[node.record].names && Useful(name);
      assert RecordShown(entries, node.record, view.paths);
      assert NameShown(entries, node, name, view.paths);
      assert NameListed(view.paths, node, name);
    }
    if p :| p in view.paths && p.node == node {
      assert Supported(entries, p);
    }
  }

  /**
   * On a complete view "no match" is given exactly when it can be: the candidate has a path, all its paths are trusted,
   * and it does not lie below. So an answer is withheld only for evidence that is really missing.
   */
  lemma NoMatchIff(entries: Entries, view: NamespaceView, candidate: Node, directory: Node)
    requires Describes(entries, view) && view.isComplete
    ensures Classify(view, candidate, directory) == NoMatch <==>
        && Named(entries, candidate)
        && (forall p :: p in view.paths && p.node == candidate ==> Trusted(entries, p))
        && !(Observed(entries, directory) && Below(entries, candidate.record, directory.record)
             && directory.record != candidate.record)
  {
    hide Describes, Below, Observed, Trusted;
    CompleteIsExact(entries, view, candidate, directory);
    NamedIsListed(entries, view, candidate);
    forall p | p in view.paths
      ensures Trusted(entries, p) <==> Good(p.state)
    {
      TrustedIsGood(entries, view, p);
    }
  }

  ghost predicate Current(entries: Entries, node: Node) {
    node.record in entries && entries[node.record].sequence == node.sequence
  }

  lemma RootIsBelowNothing(entries: Entries, directory: nat)
    ensures !Below(entries, ROOT_RECORD, directory)
  {
  }

  lemma ReorderedSame(view: NamespaceView, reordered: seq<Path>, candidate: Node, directory: Node)
    requires multiset(reordered) == multiset(view.paths)
    ensures Classify(view.(paths := reordered), candidate, directory) == Classify(view, candidate, directory)
  {
    assert forall p :: p in reordered <==> p in multiset(reordered);
    assert forall p :: p in view.paths <==> p in multiset(view.paths);
  }
}
