/** Directory scoping over the parent links of MFT records (crates/fs-ntfs/src/scan.rs:64-272, 995-1263). */
module Namespace {
  import opened Common

  const ROOT_RECORD: nat := 5
  const NS_DOS: nat := 2
  const MAX_PATH_DEPTH: nat := 255
  const MAX_NAMESPACE_PATHS: nat := 65_536
  const MAX_NAMESPACE_PATHS_PER_NAME: nat := 256
  const MAX_NAMESPACE_COMPONENTS: nat := 1_048_576

  datatype Name = Name(namespace: nat, text: seq<U16>, parentRecord: nat, parentSequence: U16)

  datatype Entry = Entry(sequence: U16, inUse: bool, isDirectory: bool, attributesComplete: bool, names: seq<Name>)

  type Entries = map<nat, Entry>

  /** One observed generation of a record. */
  datatype Node = Node(record: nat, sequence: U16)

  datatype PathState = Exact | Reconstructed | Incomplete | Orphaned | Ambiguous

  function Rank(state: PathState): nat {
    match state
    case Exact => 0
    case Reconstructed => 1
    case Incomplete => 2
    case Orphaned => 3
    case Ambiguous => 4
  }

  function MergePathState(left: PathState, right: PathState): PathState {
    if Rank(left) < Rank(right) then right else left
  }

  predicate Good(state: PathState) {
    state.Exact? || state.Reconstructed?
  }

  /** Root-first components and ancestors found above one parent link. */
  datatype Evidence = Evidence(parentPath: seq<seq<U16>>, ancestors: seq<Node>, state: PathState)

  /** A name that carries a path: not a DOS alias, and not empty. */
  ghost predicate Useful(name: Name) {
    name.namespace != NS_DOS && name.text != []
  }

  function UsefulNames(names: seq<Name>): (useful: seq<Name>)
    ensures forall n :: n in useful <==> n in names && Useful(n)
  {
    if names == [] then []
    else
      var rest, last := UsefulNames(names[..|names| - 1]), names[|names| - 1];
      assert names == names[..|names| - 1] + [last];
      if last.namespace != NS_DOS && last.text != [] then rest + [last] else rest
  }

  // ---------- What links and chains mean ----------

  /** The parent reference is honoured: a directory of the referenced generation, or deleted just after it. */
  predicate ValidLink(entries: Entries, record: nat, sequence: U16) {
    && record in entries && entries[record].isDirectory
    && var parent := entries[record];
      if record == ROOT_RECORD then parent.inUse && parent.sequence == sequence
      else parent.sequence == sequence || (!parent.inUse && parent.sequence == (sequence + 1) % U16_LIMIT)
  }

  ghost predicate LinksBy(entries: Entries, from: nat, name: Name, to: nat) {
    && from != ROOT_RECORD && from in entries && name in entries[from].names && Useful(name)
    && name.parentRecord == to && ValidLink(entries, to, name.parentSequence)
  }

  /** A validated step from a record to one of its parents; the root has none. */
  ghost predicate LinksTo(entries: Entries, from: nat, to: nat) {
    exists name :: LinksBy(entries, from, name, to)
  }

  ghost predicate IsChain(entries: Entries, chain: seq<nat>) {
    chain != [] && forall i :: 0 < i < |chain| ==> LinksTo(entries, chain[i - 1], chain[i])
  }

  ghost predicate Joins(entries: Entries, chain: seq<nat>, from: nat, to: nat) {
    IsChain(entries, chain) && chain[0] == from && chain[|chain| - 1] == to
  }

  ghost predicate Reaches(entries: Entries, from: nat, to: nat) {
    exists chain :: Joins(entries, chain, from, to)
  }

  /** The candidate lies below the directory: at least one step, whatever cycles the links contain. */
  ghost predicate Below(entries: Entries, record: nat, directory: nat) {
    exists name: Name :: LinksBy(entries, record, name, name.parentRecord) &&
      Reaches(entries, name.parentRecord, directory)
  }

  lemma ReachesSelf(entries: Entries, r: nat)
    ensures Reaches(entries, r, r)
  {
    assert Joins(entries, [r], r, r);
  }

  lemma ReachesStep(entries: Entries, from: nat, to: nat)
    requires Reaches(entries, from, to) && from != to
    ensures Below(entries, from, to)
  {
    var chain :| Joins(entries, chain, from, to);
    assert LinksTo(entries, chain[0], chain[1]);
    var name :| LinksBy(entries, from, name, chain[1]);
    forall i | 0 < i < |chain| - 1
      ensures LinksTo(entries, chain[1..][i - 1], chain[1..][i])
    {
      assert LinksTo(entries, chain[i + 1 - 1], chain[i + 1]);
    }
    assert Joins(entries, chain[1..], chain[1], to);
  }

  lemma ReachesFrom(entries: Entries, from: nat, via: nat, to: nat)
    requires LinksTo(entries, from, via) && Reaches(entries, via, to)
    ensures Reaches(entries, from, to)
  {
    var chain :| Joins(entries, chain, via, to);
    var longer := [from] + chain;
    forall i | 0 < i < |longer|
      ensures LinksTo(entries, longer[i - 1], longer[i])
    {
      assert i > 1 ==> LinksTo(entries, chain[i - 2], chain[i - 1]);
    }
    assert Joins(entries, longer, from, to);
  }

  /** A chain that visits no record twice and none of `visited`. */
  ghost predicate SimpleFrom(entries: Entries, chain: seq<nat>, from: nat, visited: set<nat>) {
    && IsChain(entries, chain) && chain[0] == from
    && (forall r :: r in chain ==> r !in visited)
    && forall i, j :: 0 <= i < j < |chain| ==> chain[i] != chain[j]
  }

  /** Cutting out a detour. */
  lemma CutChain(entries: Entries, chain: seq<nat>, i: nat, j: nat)
    requires IsChain(entries, chain) && i < j < |chain| && chain[i] == chain[j]
    ensures IsChain(entries, chain[..i] + chain[j..])
    ensures (chain[..i] + chain[j..])[0] == chain[0]
    ensures (chain[..i] + chain[j..])[|chain| - j + i - 1] == chain[|chain| - 1]
  {
    var cut := chain[..i] + chain[j..];
    forall k | 0 < k < |cut|
      ensures LinksTo(entries, cut[k - 1], cut[k])
    {
      if k <= i {
        assert LinksTo(entries, chain[k - 1], chain[k]);
      } else {
        assert LinksTo(entries, chain[k - i + j - 1], chain[k - i + j]);
      }
    }
  }

  /** Cycles never matter for reachability. */
  lemma SimpleChain(entries: Entries, chain: seq<nat>) returns (simple: seq<nat>)
    requires IsChain(entries, chain)
    ensures SimpleFrom(entries, simple, chain[0], {}) && simple[|simple| - 1] == chain[|chain| - 1]
    decreases |chain|
  {
    if i: nat, j: nat :| i < j < |chain| && chain[i] == chain[j] {
      CutChain(entries, chain, i, j);
      simple := SimpleChain(entries, chain[..i] + chain[j..]);
    } else {
      simple := chain;
    }
  }

  lemma SimpleTail(entries: Entries, chain: seq<nat>, from: nat, visited: set<nat>)
    requires SimpleFrom(entries, chain, from, visited) && |chain| > 1
    ensures LinksTo(entries, from, chain[1]) && SimpleFrom(entries, chain[1..], chain[1], visited + {from})
  {
    var tail := chain[1..];
    assert LinksTo(entries, chain[0], chain[1]);
    forall i | 0 < i < |tail|
      ensures LinksTo(entries, tail[i - 1], tail[i])
    {
      assert LinksTo(entries, chain[i], chain[i + 1]);
    }
    forall r | r in tail
      ensures r !in visited + {from}
    {
      var i :| 0 <= i < |tail| && tail[i] == r;
      assert chain[i + 1] == r && chain[0] == from;
    }
  }

  // ---------- What one expanded path means ----------

  ghost predicate Rooted(ancestors: seq<Node>) {
    ancestors != [] && ancestors[0].record == ROOT_RECORD
  }

  ghost predicate Observed(entries: Entries, node: Node) {
    node.record in entries && entries[node.record].isDirectory && entries[node.record].sequence == node.sequence
  }

  /** The component for `ancestors[i]`, read off the end because an orphan's first component may have no parent. */
  ghost predicate NamedBy(entries: Entries, path: Evidence, i: nat)
    requires 0 < i < |path.ancestors| && |path.ancestors| <= |path.parentPath| + 1
  {
    exists name ::
      && LinksBy(entries, path.ancestors[i].record, name, path.ancestors[i - 1].record)
      && name.text == path.parentPath[|path.parentPath| - |path.ancestors| + i]
  }

  /** As many components as directories, and no room for more: the walk ran into the depth limit. */
  ghost predicate Cut(path: Evidence, depth: nat) {
    |path.ancestors| == |path.parentPath| && |path.ancestors| + depth == MAX_PATH_DEPTH
  }

  ghost predicate AllComplete(entries: Entries, nodes: seq<Node>) {
    forall n :: n in nodes ==> n.record in entries && entries[n.record].attributesComplete
  }

  ghost predicate AllInUse(entries: Entries, nodes: seq<Node>) {
    forall n :: n in nodes ==> n.record in entries && entries[n.record].inUse
  }

  /** The state says exactly how good the evidence is. */
  ghost predicate StateExact(entries: Entries, depth: nat, path: Evidence) {
    path.state ==
      if Cut(path, depth) then Incomplete
      else if !Rooted(path.ancestors) then Orphaned
      else if !AllComplete(entries, path.ancestors) then Incomplete
      else if !AllInUse(entries, path.ancestors) then Reconstructed
      else Exact
  }

  /** The link leads to no directory of its generation, or back to one already passed. */
  ghost predicate Blocked(entries: Entries, record: nat, sequence: U16, visited: set<nat>, passed: seq<Node>) {
    !ValidLink(entries, record, sequence) || record in visited || exists n :: n in passed && n.record == record
  }

  ghost predicate BlockedName(entries: Entries, name: Name, visited: set<nat>, path: Evidence)
    requires path.ancestors != [] && path.parentPath != []
  {
    && path.ancestors[0].record in entries && name in entries[path.ancestors[0].record].names && Useful(name)
    && name.text == path.parentPath[0]
    && Blocked(entries, name.parentRecord, name.parentSequence, visited, path.ancestors)
  }

  /** Why an orphan goes no further: its topmost directory has no usable name, or its topmost link is blocked. */
  ghost predicate DeadEnd(entries: Entries, record: nat, sequence: U16, visited: set<nat>, path: Evidence) {
    var a := path.ancestors;
    if |a| > |path.parentPath| then
      a[0].record in entries && forall n :: n in entries[a[0].record].names ==> !Useful(n)
    else if a == [] || path.parentPath == [] then Blocked(entries, record, sequence, visited, a)
    else exists name :: BlockedName(entries, name, visited, path)
  }

  /**
   * A path above the link `(record, sequence)`: observed directories joined by validated links, none of them visited
   * twice, and the state that says exactly whether the root was reached, how, and why not.
   */
  ghost predicate ValidPath(entries: Entries, record: nat, sequence: U16, visited: set<nat>, depth: nat,
                            path: Evidence)
  {
    var a := path.ancestors;
    && (a != [] ==>
          a[|a| - 1].record == record && ValidLink(entries, record, sequence) && |a| + depth <= MAX_PATH_DEPTH)
    && (forall n :: n in a ==> Observed(entries, n) && n.record !in visited)
    && (forall i, j :: 0 <= i < j < |a| ==> a[i].record != a[j].record)
    && |path.parentPath| <= |a| <= |path.parentPath| + 1
    && (Rooted(a) ==> |a| == |path.parentPath| + 1)
    && (forall i :: 0 < i < |a| ==> NamedBy(entries, path, i))
    && StateExact(entries, depth, path)
    && (path.state.Orphaned? ==> DeadEnd(entries, record, sequence, visited, path))
  }

  ghost predicate ValidPaths(entries: Entries, record: nat, sequence: U16, visited: set<nat>, depth: nat,
                             paths: seq<Evidence>)
  {
    forall p :: p in paths ==> ValidPath(entries, record, sequence, visited, depth, p)
  }

  function Extend(up: Evidence, text: seq<U16>, node: Node, relation: PathState): Evidence {
    Evidence(up.parentPath + [text], up.ancestors + [node], MergePathState(up.state, relation))
  }

  function RelationState(entry: Entry): PathState {
    if !entry.attributesComplete then Incomplete else if !entry.inUse then Reconstructed else Exact
  }

  lemma ExtendValid(entries: Entries, record: nat, sequence: U16, visited: set<nat>, depth: nat, name: Name,
                    up: Evidence)
    requires ValidLink(entries, record, sequence) && record != ROOT_RECORD && record !in visited
    requires depth < MAX_PATH_DEPTH
    requires name in entries[record].names && Useful(name)
    requires ValidPath(entries, name.parentRecord, name.parentSequence, visited + {record}, depth + 1, up)
    ensures ValidPath(entries, record, sequence, visited, depth,
                      Extend(up, name.text, Node(record, entries[record].sequence), RelationState(entries[record])))
  {
    var node := Node(record, entries[record].sequence);
    var path := Extend(up, name.text, node, RelationState(entries[record]));
    var a, b := up.ancestors, path.ancestors;
    assert b[|a|] == node;
    forall i | 0 < i < |b|
      ensures NamedBy(entries, path, i)
    {
      if i < |a| {
        assert NamedBy(entries, up, i);
      } else {
        assert LinksBy(entries, record, name, a[|a| - 1].record);
        assert path.parentPath[|path.parentPath| - 1] == name.text;
      }
    }
    assert depth + 1 + |a| == depth + |b|;
    ExtendState(entries, depth, up, path, node);
    if path.state.Orphaned? {
      ExtendDeadEnd(entries, record, sequence, visited, name, up, path, node);
    }
  }

  lemma ExtendDeadEnd(entries: Entries, record: nat, sequence: U16, visited: set<nat>, name: Name, up: Evidence,
                      path: Evidence, node: Node)
    requires record in entries && name in entries[record].names && Useful(name) && node.record == record
    requires |up.parentPath| <= |up.ancestors| <= |up.parentPath| + 1
    requires path.parentPath == up.parentPath + [name.text] && path.ancestors == up.ancestors + [node]
    requires DeadEnd(entries, name.parentRecord, name.parentSequence, visited + {record}, up)
    ensures DeadEnd(entries, record, sequence, visited, path)
  {
    var a, b := up.ancestors, path.ancestors;
    hide ValidLink, Useful;
    assert node in b && forall n :: n in b <==> n in a || n == node;
    if a == [] {
      assert BlockedName(entries, name, visited, path);
    } else if |a| == |up.parentPath| {
      var blocked :| BlockedName(entries, blocked, visited + {record}, up);
      assert BlockedName(entries, blocked, visited, path);
    }
  }

  lemma ExtendState(entries: Entries, depth: nat, up: Evidence, path: Evidence, node: Node)
    requires (forall n :: n in up.ancestors ==> Observed(entries, n)) && StateExact(entries, depth + 1, up)
    requires |path.parentPath| == |up.parentPath| + 1
    requires Observed(entries, node) && node.record != ROOT_RECORD && path.ancestors == up.ancestors + [node]
    requires path.state == MergePathState(up.state, RelationState(entries[node.record]))
    ensures (forall n :: n in path.ancestors ==> Observed(entries, n)) && StateExact(entries, depth, path)
    ensures path.state.Orphaned? ==> up.state.Orphaned?
  {
    var a, b := up.ancestors, path.ancestors;
    assert node in b && forall n :: n in b <==> n in a || n == node;
    assert a != [] ==> b[0] == a[0];
    assert AllComplete(entries, b) <==> AllComplete(entries, a) && entries[node.record].attributesComplete;
    assert AllInUse(entries, b) <==> AllInUse(entries, a) && entries[node.record].inUse;
  }

  // ---------- Expansion ----------

  ghost predicate AllGood(paths: seq<Evidence>) {
    forall p :: p in paths ==> Good(p.state)
  }

  ghost predicate Covered(entries: Entries, paths: seq<Evidence>, directory: nat) {
    exists p :: p in paths && directory in entries && Node(directory, entries[directory].sequence) in p.ancestors
  }

  /** Every directory that can be reached through the link appears above it. */
  ghost predicate Exhaustive(entries: Entries, record: nat, sequence: U16, paths: seq<Evidence>) {
    ValidLink(entries, record, sequence) && forall d :: Reaches(entries, record, d) ==> Covered(entries, paths, d)
  }

  /** Every directory at the end of a simple chain through the link appears above it, whatever the states. */
  ghost predicate ShowsChains(entries: Entries, record: nat, sequence: U16, visited: set<nat>, paths: seq<Evidence>) {
    ValidLink(entries, record, sequence) ==>
      forall chain :: SimpleFrom(entries, chain, record, visited) ==> Covered(entries, paths, chain[|chain| - 1])
  }

  /** A path that ran into the depth limit. */
  ghost predicate CutByDepth(paths: seq<Evidence>, depth: nat) {
    exists p :: p in paths && |p.ancestors| + depth == MAX_PATH_DEPTH
  }

  /** The only two ways in which an expansion can be incomplete, both visible in its result. */
  ghost predicate Bounded(paths: seq<Evidence>, depth: nat) {
    |paths| >= MAX_NAMESPACE_PATHS_PER_NAME || CutByDepth(paths, depth)
  }

  function ExtendAll(upstream: seq<Evidence>, text: seq<U16>, node: Node, relation: PathState): (paths: seq<Evidence>)
    ensures |paths| == |upstream|
    ensures forall i :: 0 <= i < |paths| ==> paths[i] == Extend(upstream[i], text, node, relation)
  {
    seq(|upstream|, i requires 0 <= i < |upstream| => Extend(upstream[i], text, node, relation))
  }

  /** The inner loop of `expand_parent_paths`: take upstream paths until the per-name budget is full. */
  method AppendExtended(before: seq<Evidence>, upstream: seq<Evidence>, text: seq<U16>, node: Node, relation: PathState)
    returns (paths: seq<Evidence>, truncated: bool)
    requires |before| <= MAX_NAMESPACE_PATHS_PER_NAME
    ensures |before| <= |paths| <= MAX_NAMESPACE_PATHS_PER_NAME && |paths| <= |before| + |upstream|
    ensures truncated <==> |before| + |upstream| > MAX_NAMESPACE_PATHS_PER_NAME
    ensures truncated ==> |paths| == MAX_NAMESPACE_PATHS_PER_NAME
    ensures paths == before + ExtendAll(upstream, text, node, relation)[..|paths| - |before|]
    ensures !truncated ==> paths == before + ExtendAll(upstream, text, node, relation)
  {
    ghost var all := ExtendAll(upstream, text, node, relation);
    paths := before;
    for i := 0 to |upstream|
      invariant |paths| == |before| + i <= MAX_NAMESPACE_PATHS_PER_NAME
      invariant paths == before + all[..i]
    {
      if |paths| >= MAX_NAMESPACE_PATHS_PER_NAME {
        return paths, true;
      }
      paths := paths + [Extend(upstream[i], text, node, relation)];
    }
    assert all[..|upstream|] == all;
    truncated := false;
  }

  /** A longer list covers what a shorter one did. */
  lemma CoveredMore(entries: Entries, a: seq<Evidence>, b: seq<Evidence>, record: nat, sequence: U16)
    requires Exhaustive(entries, record, sequence, a) && forall p :: p in a ==> p in b
    ensures Exhaustive(entries, record, sequence, b)
  {
    forall d | Reaches(entries, record, d)
      ensures Covered(entries, b, d)
    {
      assert Covered(entries, a, d);
    }
  }

  /** Extending keeps coverage, and goodness of the extension means goodness of what was extended. */
  lemma ExtendAllCovers(entries: Entries, upstream: seq<Evidence>, text: seq<U16>, node: Node, relation: PathState,
                        record: nat, sequence: U16)
    requires Exhaustive(entries, record, sequence, upstream)
    ensures Exhaustive(entries, record, sequence, ExtendAll(upstream, text, node, relation))
  {
    var extended := ExtendAll(upstream, text, node, relation);
    forall d | Reaches(entries, record, d)
      ensures Covered(entries, extended, d)
    {
      assert Covered(entries, upstream, d);
      var i :| 0 <= i < |upstream| && d in entries && Node(d, entries[d].sequence) in upstream[i].ancestors;
      assert extended[i] in extended;
    }
  }

  lemma ExtendAllGood(before: seq<Evidence>, upstream: seq<Evidence>, text: seq<U16>, node: Node, relation: PathState)
    requires AllGood(before + ExtendAll(upstream, text, node, relation))
    ensures AllGood(before) && AllGood(upstream)
  {
    var all := before + ExtendAll(upstream, text, node, relation);
    forall i | 0 <= i < |upstream|
      ensures Good(upstream[i].state)
    {
      assert all[|before| + i] in all;
    }
  }

  /** All names of a directory covered, so everything reachable through the directory is. */
  lemma NamesCover(entries: Entries, record: nat, sequence: U16, visited: set<nat>, depth: nat, names: seq<Name>,
                   paths: seq<Evidence>)
    requires ValidLink(entries, record, sequence) && record != ROOT_RECORD
    requires names == UsefulNames(entries[record].names)
    requires paths != [] && AllGood(paths) && ValidPaths(entries, record, sequence, visited, depth, paths)
    requires forall n :: n in names ==> Exhaustive(entries, n.parentRecord, n.parentSequence, paths)
    ensures Exhaustive(entries, record, sequence, paths)
  {
    forall d | Reaches(entries, record, d)
      ensures Covered(entries, paths, d)
    {
      if d == record {
        var a := paths[0].ancestors;
        assert paths[0] in paths && a[|a| - 1] in a;
      } else {
        ReachesStep(entries, record, d);
      }
    }
  }

  lemma RootReachesItself(entries: Entries, d: nat)
    requires Reaches(entries, ROOT_RECORD, d)
    ensures d == ROOT_RECORD
  {
    if d != ROOT_RECORD {
      ReachesStep(entries, ROOT_RECORD, d);
    }
  }

  /**
   * `expand_parent_paths`. The source's last branch, no path after the names, cannot be taken: expansions are never
   * empty.
   */
  method ExpandParentPaths(entries: Entries, parentRecord: nat, parentSequence: U16, visited: set<nat>, depth: nat)
    returns (paths: seq<Evidence>, complete: bool)
    requires depth <= MAX_PATH_DEPTH
    ensures 0 < |paths| <= MAX_NAMESPACE_PATHS_PER_NAME
    ensures ValidPaths(entries, parentRecord, parentSequence, visited, depth, paths)
    ensures complete && AllGood(paths) ==> Exhaustive(entries, parentRecord, parentSequence, paths)
    ensures complete ==> ShowsChains(entries, parentRecord, parentSequence, visited, paths)
    ensures !complete ==> Bounded(paths, depth)
    decreases MAX_PATH_DEPTH - depth, 1
  {
    if depth >= MAX_PATH_DEPTH {
      paths, complete := [Evidence([], [], Incomplete)], false;
      assert |paths[0].ancestors| + depth == MAX_PATH_DEPTH;
      return;
    }
    if parentRecord in visited || parentRecord !in entries || !entries[parentRecord].isDirectory {
      return [Evidence([], [], Orphaned)], true;
    }
    var parent := entries[parentRecord];
    var node := Node(parentRecord, parent.sequence);
    if parentRecord == ROOT_RECORD {
      if !parent.inUse || parent.sequence != parentSequence {
        return [Evidence([], [], Orphaned)], true;
      }
      forall d | Reaches(entries, ROOT_RECORD, d)
        ensures d == ROOT_RECORD
      {
        RootReachesItself(entries, d);
      }
      paths, complete := [Evidence([], [node], if parent.attributesComplete then Exact else Incomplete)], true;
      assert node in paths[0].ancestors;
      NamelessShows(entries, parentRecord, parentSequence, visited, paths);
      return;
    }
    if parent.sequence != parentSequence && (parent.inUse || parent.sequence != (parentSequence + 1) % U16_LIMIT) {
      return [Evidence([], [], Orphaned)], true;
    }
    var names := UsefulNames(parent.names);
    if names == [] {
      paths, complete := [Evidence([], [node], Orphaned)], true;
      NamelessShows(entries, parentRecord, parentSequence, visited, paths);
      return;
    }
    paths, complete := ExpandNames(entries, parentRecord, parentSequence, visited, depth, names);
  }

  lemma NamelessShows(entries: Entries, record: nat, sequence: U16, visited: set<nat>, paths: seq<Evidence>)
    requires record in entries && (record == ROOT_RECORD || UsefulNames(entries[record].names) == [])
    requires paths != [] && Node(record, entries[record].sequence) in paths[0].ancestors
    ensures ShowsChains(entries, record, sequence, visited, paths)
  {
    forall chain | SimpleFrom(entries, chain, record, visited)
      ensures |chain| == 1
    {
      if |chain| > 1 {
        SimpleTail(entries, chain, record, visited);
      }
    }
  }

  /** The loop over the directory's own names. */
  method ExpandNames(entries: Entries, record: nat, sequence: U16, visited: set<nat>, depth: nat, names: seq<Name>)
    returns (paths: seq<Evidence>, complete: bool)
    requires depth < MAX_PATH_DEPTH && record !in visited && record != ROOT_RECORD
    requires record in entries && ValidLink(entries, record, sequence)
    requires names != [] && names == UsefulNames(entries[record].names)
    ensures 0 < |paths| <= MAX_NAMESPACE_PATHS_PER_NAME
    ensures ValidPaths(entries, record, sequence, visited, depth, paths)
    ensures complete && AllGood(paths) ==> Exhaustive(entries, record, sequence, paths)
    ensures complete ==> ShowsChains(entries, record, sequence, visited, paths)
    ensures !complete ==> Bounded(paths, depth)
    decreases MAX_PATH_DEPTH - depth, 0
  {
    hide Expanded, Exhaustive, ValidPath, AllGood, ValidLink, ShowsChains, Covered, Bounded, Useful, UsefulNames;
    var node, relation := Node(record, entries[record].sequence), RelationState(entries[record]);
    paths, complete := [], true;
    NothingExpanded(entries, record, visited, depth, names);
    for k := 0 to |names|
      invariant |paths| <= MAX_NAMESPACE_PATHS_PER_NAME
      invariant ValidPaths(entries, record, sequence, visited, depth, paths)
      invariant Expanded(entries, record, visited, depth, names, k, paths, complete)
    {
      var name := names[k];
      assert name in names;
      if |paths| >= MAX_NAMESPACE_PATHS_PER_NAME {
        FullIsBounded(paths, depth);
        return paths, false;
      }
      var upstream, upstreamComplete :=
        ExpandParentPaths(entries, name.parentRecord, name.parentSequence, visited + {record}, depth + 1);
      ghost var before := paths;
      var truncated;
      paths, truncated := AppendExtended(paths, upstream, name.text, node, relation);
      ExtendAllValid(entries, record, sequence, visited, depth, name, upstream, before, paths);
      if truncated {
        FullIsBounded(paths, depth);
        return paths, false;
      }
      ExpandedStep(entries, record, visited, depth, names, k, before, complete, upstream, upstreamComplete, relation);
      complete := complete && upstreamComplete;
    }
    ExpandedDone(entries, record, sequence, visited, depth, names, paths, complete);
  }

  lemma FullIsBounded(paths: seq<Evidence>, depth: nat)
    requires |paths| >= MAX_NAMESPACE_PATHS_PER_NAME
    ensures Bounded(paths, depth)
  {
  }

  /** What the first `k` names of a directory have contributed. */
  ghost predicate Expanded(entries: Entries, record: nat, visited: set<nat>, depth: nat, names: seq<Name>, k: nat,
                           paths: seq<Evidence>, complete: bool)
  {
    && k <= |names|
    && (k > 0 ==> paths != [] && Covered(entries, paths, record))
    && (complete && AllGood(paths) ==>
          forall j :: 0 <= j < k ==> Exhaustive(entries, names[j].parentRecord, names[j].parentSequence, paths))
    && (complete ==> forall j :: 0 <= j < k ==>
          ShowsChains(entries, names[j].parentRecord, names[j].parentSequence, visited + {record}, paths))
    && (!complete ==> Bounded(paths, depth))
  }

  lemma NothingExpanded(entries: Entries, record: nat, visited: set<nat>, depth: nat, names: seq<Name>)
    ensures Expanded(entries, record, visited, depth, names, 0, [], true)
  {
  }

  lemma ExpandedStep(entries: Entries, record: nat, visited: set<nat>, depth: nat, names: seq<Name>, k: nat,
                     before: seq<Evidence>, complete: bool, upstream: seq<Evidence>, upstreamComplete: bool,
                     relation: PathState)
    requires record in entries && k < |names| && upstream != []
    requires Expanded(entries, record, visited, depth, names, k, before, complete)
    requires upstreamComplete ==>
      ShowsChains(entries, names[k].parentRecord, names[k].parentSequence, visited + {record}, upstream)
    requires upstreamComplete && AllGood(upstream) ==>
      Exhaustive(entries, names[k].parentRecord, names[k].parentSequence, upstream)
    requires !upstreamComplete ==> Bounded(upstream, depth + 1)
    ensures Expanded(entries, record, visited, depth, names, k + 1,
                     before + ExtendAll(upstream, names[k].text, Node(record, entries[record].sequence), relation),
                     complete && upstreamComplete)
  {
    hide Covered, AllGood, Exhaustive, ShowsChains, Bounded;
    var node := Node(record, entries[record].sequence);
    var paths := before + ExtendAll(upstream, names[k].text, node, relation);
    NameShows(entries, record, names, k, visited, before, upstream, relation);
    if !complete || !upstreamComplete {
      StillBounded(before, upstream, names[k].text, node, relation, depth);
    } else if AllGood(paths) {
      NameCovered(entries, names, k, before, upstream, node, relation);
    }
  }

  lemma ExpandedDone(entries: Entries, record: nat, sequence: U16, visited: set<nat>, depth: nat, names: seq<Name>,
                     paths: seq<Evidence>, complete: bool)
    requires ValidLink(entries, record, sequence) && record != ROOT_RECORD && names != []
    requires names == UsefulNames(entries[record].names)
    requires Expanded(entries, record, visited, depth, names, |names|, paths, complete)
    requires ValidPaths(entries, record, sequence, visited, depth, paths)
    ensures paths != []
    ensures complete && AllGood(paths) ==> Exhaustive(entries, record, sequence, paths)
    ensures complete ==> ShowsChains(entries, record, sequence, visited, paths)
    ensures !complete ==> Bounded(paths, depth)
  {
    hide Covered, AllGood, Exhaustive, ShowsChains, Bounded, ValidPaths;
    if complete {
      NamesShow(entries, record, sequence, visited, names, paths);
      if AllGood(paths) {
        NamesCover(entries, record, sequence, visited, depth, names, paths);
      }
    }
  }

  /** One more name: what was shown stays shown, and the new name's chains are shown too. */
  lemma NameShows(entries: Entries, record: nat, names: seq<Name>, k: nat, visited: set<nat>, before: seq<Evidence>,
                  upstream: seq<Evidence>, relation: PathState)
    requires k < |names| && record in entries && upstream != []
    ensures var paths := before + ExtendAll(upstream, names[k].text, Node(record, entries[record].sequence), relation);
      && Covered(entries, paths, record)
      && (forall j :: 0 <= j < k ==>
            ShowsChains(entries, names[j].parentRecord, names[j].parentSequence, visited + {record}, before) ==>
            ShowsChains(entries, names[j].parentRecord, names[j].parentSequence, visited + {record}, paths))
      && (ShowsChains(entries, names[k].parentRecord, names[k].parentSequence, visited + {record}, upstream) ==>
            ShowsChains(entries, names[k].parentRecord, names[k].parentSequence, visited + {record}, paths))
  {
    var node := Node(record, entries[record].sequence);
    var extended := ExtendAll(upstream, names[k].text, node, relation);
    var paths := before + extended;
    assert extended[0] in paths && node in extended[0].ancestors;
    forall d
      ensures Covered(entries, before, d) || Covered(entries, upstream, d) ==> Covered(entries, paths, d)
    {
      if Covered(entries, upstream, d) {
        var i :| 0 <= i < |upstream| && d in entries && Node(d, entries[d].sequence) in upstream[i].ancestors;
        assert extended[i] in paths;
      }
    }
    hide Covered, ValidLink, SimpleFrom;
  }

  lemma NamesShow(entries: Entries, record: nat, sequence: U16, visited: set<nat>, names: seq<Name>,
                  paths: seq<Evidence>)
    requires record in entries && names == UsefulNames(entries[record].names) && Covered(entries, paths, record)
    requires forall n :: n in names ==>
      ShowsChains(entries, n.parentRecord, n.parentSequence, visited + {record}, paths)
    ensures ShowsChains(entries, record, sequence, visited, paths)
  {
    forall chain | SimpleFrom(entries, chain, record, visited)
      ensures Covered(entries, paths, chain[|chain| - 1])
    {
      if |chain| > 1 {
        SimpleTail(entries, chain, record, visited);
        var name :| LinksBy(entries, record, name, chain[1]);
        assert name in names;
        assert chain[1..][|chain| - 2] == chain[|chain| - 1];
      }
    }
  }

  lemma StillBounded(before: seq<Evidence>, upstream: seq<Evidence>, text: seq<U16>, node: Node, relation: PathState,
                     depth: nat)
    requires Bounded(before, depth) || Bounded(upstream, depth + 1)
    ensures Bounded(before + ExtendAll(upstream, text, node, relation), depth)
  {
    var extended := ExtendAll(upstream, text, node, relation);
    if CutByDepth(upstream, depth + 1) {
      var i :| 0 <= i < |upstream| && |upstream[i].ancestors| + depth + 1 == MAX_PATH_DEPTH;
      assert extended[i] in before + extended;
    } else if CutByDepth(before, depth) {
      var p :| p in before && |p.ancestors| + depth == MAX_PATH_DEPTH;
      assert p in before + extended;
    }
  }

  lemma ExtendAllValid(entries: Entries, record: nat, sequence: U16, visited: set<nat>, depth: nat, name: Name,
                       upstream: seq<Evidence>, before: seq<Evidence>, paths: seq<Evidence>)
    requires ValidLink(entries, record, sequence) && record != ROOT_RECORD && record !in visited
    requires depth < MAX_PATH_DEPTH
    requires name in entries[record].names && Useful(name)
    requires ValidPaths(entries, name.parentRecord, name.parentSequence, visited + {record}, depth + 1, upstream)
    requires ValidPaths(entries, record, sequence, visited, depth, before)
    requires |before| <= |paths| <= |before| + |upstream|
    requires var extended :=
        ExtendAll(upstream, name.text, Node(record, entries[record].sequence), RelationState(entries[record]));
      |paths| - |before| <= |extended| && paths == before + extended[..|paths| - |before|]
    ensures ValidPaths(entries, record, sequence, visited, depth, paths)
  {
    hide ValidPath;
    forall i | 0 <= i < |paths|
      ensures ValidPath(entries, record, sequence, visited, depth, paths[i])
    {
      if i < |before| {
        assert before[i] in before;
      } else {
        assert upstream[i - |before|] in upstream;
        ExtendValid(entries, record, sequence, visited, depth, name, upstream[i - |before|]);
      }
    }
  }

  lemma NameCovered(entries: Entries, names: seq<Name>, k: nat, before: seq<Evidence>, upstream: seq<Evidence>,
                    node: Node, relation: PathState)
    requires k < |names|
    requires AllGood(before + ExtendAll(upstream, names[k].text, node, relation))
    requires AllGood(before) ==>
        forall j :: 0 <= j < k ==> Exhaustive(entries, names[j].parentRecord, names[j].parentSequence, before)
    requires AllGood(upstream) ==> Exhaustive(entries, names[k].parentRecord, names[k].parentSequence, upstream)
    ensures forall j :: 0 <= j <= k ==>
        Exhaustive(entries, names[j].parentRecord, names[j].parentSequence,
                   before + ExtendAll(upstream, names[k].text, node, relation))
  {
    hide Exhaustive, AllGood;
    var extended := ExtendAll(upstream, names[k].text, node, relation);
    ExtendAllGood(before, upstream, names[k].text, node, relation);
    ExtendAllCovers(entries, upstream, names[k].text, node, relation, names[k].parentRecord, names[k].parentSequence);
    CoveredMore(entries, extended, before + extended, names[k].parentRecord, names[k].parentSequence);
    forall j | 0 <= j < k
      ensures Exhaustive(entries, names[j].parentRecord, names[j].parentSequence, before + extended)
    {
      CoveredMore(entries, before, before + extended, names[j].parentRecord, names[j].parentSequence);
    }
  }
}
