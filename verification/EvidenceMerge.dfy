/** Attaching carved evidence to metadata candidates by exact physical range (crates/cli/src/deep.rs:222-358). */
module EvidenceMerge {
  import opened Common
  import opened Candidates
  import opened Carving

  datatype DiscoveryMethod = NtfsMetadata | OtherMetadata | Carving

  datatype Discovered = Discovered(candidate: Candidate, discovery: DiscoveryMethod, recordRef: nat)

  datatype PhysicalRange = PhysicalRange(offset: nat, len: nat)

  // ---------- Exact physical ranges ----------

  /** The length of the first `k` extents: where `extents[k]` must start in a list without gaps. */
  function LogicalStart(extents: seq<ExtentRun>, k: nat): nat
    requires k <= |extents|
  {
    if k == 0 then 0 else LogicalStart(extents, k - 1) + extents[k - 1].len
  }

  function Base(c: Candidate): nat {
    if c.extents != [] && c.extents[0].physical.Some? then c.extents[0].physical.value else 0
  }

  /** `extents[k]` continues the file and the run of source bytes. */
  predicate Continues(c: Candidate, k: nat)
    requires k < |c.extents|
  {
    var extent := c.extents[k];
    extent.len > 0 && extent.logical == LogicalStart(c.extents, k) && extent.physical == Some(Base(c) + extent.logical)
  }

  /** The extents are one unbroken run of source bytes, in file order, as long as the file. */
  ghost predicate Contiguous(c: Candidate) {
    && c.size > 0 && c.extents != []
    && (forall k :: 0 <= k < |c.extents| ==> Continues(c, k))
    && LogicalStart(c.extents, |c.extents|) == c.size
    && c.size < U64_LIMIT && Base(c) + c.size < U64_LIMIT
  }

  ghost function RangeOf(c: Candidate): Option<PhysicalRange> {
    if Contiguous(c) then Some(PhysicalRange(Base(c), c.size)) else None
  }

  lemma {:induction false} LogicalGrows(extents: seq<ExtentRun>, j: nat, k: nat)
    requires j <= k <= |extents|
    ensures LogicalStart(extents, j) <= LogicalStart(extents, k)
    decreases k - j
  {
    if j < k {
      LogicalGrows(extents, j, k - 1);
    }
  }

  lemma ContiguousStep(c: Candidate, k: nat)
    requires k < |c.extents|
    ensures Contiguous(c) ==>
        Continues(c, k) && LogicalStart(c.extents, k) + c.extents[k].len <= c.size < U64_LIMIT &&
          Base(c) + c.size < U64_LIMIT
  {
    hide Continues;
    LogicalGrows(c.extents, k + 1, |c.extents|);
  }

  /** `exact_physical_range`. */
  method ExactPhysicalRange(c: Candidate) returns (r: Option<PhysicalRange>)
    ensures r == RangeOf(c)
  {
    if c.size == 0 || c.extents == [] {
      return None;
    }
    var logical, physical := 0, 0;
    for k := 0 to |c.extents|
      invariant logical == LogicalStart(c.extents, k) <= c.size
      invariant forall i :: 0 <= i < k ==> Continues(c, i)
      invariant k > 0 ==> physical == Base(c) + logical < U64_LIMIT && logical < U64_LIMIT
    {
      hide Contiguous;
      ContiguousStep(c, k);
      var extent := c.extents[k];
      if extent.len == 0 || extent.logical != logical || extent.physical.None? {
        return None;
      }
      if k > 0 && extent.physical.value != physical {
        return None;
      }
      physical := extent.physical.value;
      if logical + extent.len >= U64_LIMIT || physical + extent.len >= U64_LIMIT {
        return None;
      }
      logical, physical := logical + extent.len, physical + extent.len;
      if logical > c.size {
        return None;
      }
    }
    r := if logical == c.size then Some(PhysicalRange(Base(c), c.size)) else None;
  }

  // ---------- Ownership by metadata ----------

  ghost predicate DistinctIds(list: seq<Discovered>) {
    forall i, j :: 0 <= i < j < |list| ==> list[i].candidate.id != list[j].candidate.id
  }

  ghost predicate Owns(list: seq<Discovered>, range: PhysicalRange, id: nat) {
    exists d :: d in list && d.discovery == NtfsMetadata && RangeOf(d.candidate) == Some(range) && d.candidate.id == id
  }

  ghost predicate SoleOwner(list: seq<Discovered>, range: PhysicalRange, id: nat) {
    Owns(list, range, id) && forall other: nat :: Owns(list, range, other) ==> other == id
  }

  type Owners = map<PhysicalRange, Option<nat>>

  /** The table of owners says which ranges have one owner and which have several. */
  ghost predicate Tabulates(owners: Owners, list: seq<Discovered>) {
    forall range :: EntryRight(owners, list, range)
  }

  ghost predicate EntryRight(owners: Owners, list: seq<Discovered>, range: PhysicalRange) {
    if range !in owners then Unowned(list, range)
    else if owners[range].Some? then SoleOwner(list, range, owners[range].value)
    else SharedRange(list, range)
  }

  ghost predicate Unowned(list: seq<Discovered>, range: PhysicalRange) {
    forall id: nat :: !Owns(list, range, id)
  }

  ghost predicate SharedRange(list: seq<Discovered>, range: PhysicalRange) {
    exists a: nat, b: nat :: Owns(list, range, a) && Owns(list, range, b) && a != b
  }

  lemma OwnsSnoc(list: seq<Discovered>, last: Discovered)
    ensures forall range: PhysicalRange, id: nat ::
        Owns(list + [last], range, id) <==>
        Owns(list, range, id) ||
        (last.discovery == NtfsMetadata && RangeOf(last.candidate) == Some(range) && last.candidate.id == id)
  {
    hide RangeOf;
    forall range: PhysicalRange, id: nat
      ensures Owns(list + [last], range, id) <==>
          Owns(list, range, id) ||
          (last.discovery == NtfsMetadata && RangeOf(last.candidate) == Some(range) && last.candidate.id == id)
    {
      if last.discovery == NtfsMetadata && RangeOf(last.candidate) == Some(range) && last.candidate.id == id {
        assert last in list + [last];
      }
      if Owns(list, range, id) {
        var d :| d in list && d.discovery == NtfsMetadata && RangeOf(d.candidate) == Some(range) &&
          d.candidate.id == id;
        assert d in list + [last];
      }
    }
  }

  /** `metadata_ranges` after one more candidate. */
  function AddOwner(owners: Owners, range: PhysicalRange, id: nat): Owners {
    if range !in owners then owners[range := Some(id)]
    else if owners[range] != Some(id) then owners[range := None]
    else owners
  }

  lemma AddOwnerKeeps(owners: Owners, list: seq<Discovered>, d: Discovered)
    requires Tabulates(owners, list) && d.discovery == NtfsMetadata && RangeOf(d.candidate).Some?
    ensures Tabulates(AddOwner(owners, RangeOf(d.candidate).value, d.candidate.id), list + [d])
  {
    var range0, id0 := RangeOf(d.candidate).value, d.candidate.id;
    OwnsSnoc(list, d);
    hide Owns, RangeOf;
    forall range
      ensures EntryRight(AddOwner(owners, range0, id0), list + [d], range)
    {
      assert EntryRight(owners, list, range);
      if range == range0 {
        assert Owns(list + [d], range, id0);
        if range in owners && owners[range].Some? && owners[range].value != id0 {
          assert Owns(list + [d], range, owners[range].value);
        }
      } else {
        assert forall id: nat :: Owns(list + [d], range, id) <==> Owns(list, range, id);
      }
    }
  }

  lemma OtherKeeps(owners: Owners, list: seq<Discovered>, d: Discovered)
    requires Tabulates(owners, list) && (d.discovery != NtfsMetadata || RangeOf(d.candidate).None?)
    ensures Tabulates(owners, list + [d])
  {
    OwnsSnoc(list, d);
    hide Owns, RangeOf;
    forall range
      ensures EntryRight(owners, list + [d], range)
    {
      assert EntryRight(owners, list, range);
      assert forall id: nat :: Owns(list + [d], range, id) <==> Owns(list, range, id);
    }
  }

  /** The first loop of the merge: ids must be distinct, ranges get their owners. */
  method TabulateOwners(list: seq<Discovered>) returns (r: Option<(Owners, Option<nat>)>)
    ensures r.Some? <==> DistinctIds(list)
    ensures r.Some? ==> Tabulates(r.value.0, list) && Largest(r.value.1, list)
  {
    hide RangeOf, Owns, Tabulates;
    var used: set<nat>, owners: Owners, last: Option<nat> := {}, map[], None;
    NoOwners();
    for i := 0 to |list|
      invariant forall j :: 0 <= j < i ==> list[j].candidate.id in used
      invariant forall id :: id in used ==> exists j :: 0 <= j < i && list[j].candidate.id == id
      invariant DistinctIds(list[..i]) && Tabulates(owners, list[..i]) && Largest(last, list[..i])
    {
      var d := list[i];
      assert list[..i + 1] == list[..i] + [d];
      if d.candidate.id in used {
        return None;
      }
      used := used + {d.candidate.id};
      last := Some(if last.None? then d.candidate.id else Max(last.value, d.candidate.id));
      var range := ExactPhysicalRange(d.candidate);
      if d.discovery == NtfsMetadata && range.Some? {
        AddOwnerKeeps(owners, list[..i], d);
        owners := AddOwner(owners, range.value, d.candidate.id);
      } else {
        OtherKeeps(owners, list[..i], d);
      }
    }
    assert list[..|list|] == list;
    return Some((owners, last));
  }

  lemma NoOwners()
    ensures Tabulates(map[], [])
  {
  }

  ghost predicate Largest(last: Option<nat>, list: seq<Discovered>) {
    match last
    case None => list == []
    case Some(id) => (forall d :: d in list ==> d.candidate.id <= id) && exists d :: d in list && d.candidate.id == id
  }

  // ---------- The merge itself ----------

  function RangeOfItem(item: Evidence): PhysicalRange {
    PhysicalRange(item.physicalOffset, item.len)
  }

  /** A carved candidate and its evidence speak about the same bytes. */
  ghost predicate Matches(d: Discovered, item: Evidence) {
    && d.discovery == Carving && d.candidate.id == item.candidateId && d.recordRef == item.physicalOffset
    && d.candidate.size == item.len && RangeOf(d.candidate) == Some(RangeOfItem(item))
  }

  ghost predicate Conflict(items: seq<Evidence>) {
    exists a, b :: a in items && b in items && RangeOfItem(a) == RangeOfItem(b) && a.contentSha256 != b.contentSha256
  }

  /** The id belongs to a candidate whose bytes are exactly this range. */
  ghost predicate Names(list: seq<Discovered>, range: PhysicalRange, id: nat) {
    exists d :: d in list && d.candidate.id == id && RangeOf(d.candidate) == Some(range)
  }

  /** Evidence goes to the one metadata candidate that owns the range, or else to a carved one added for it. */
  ghost predicate AssignedRight(inputs: seq<Discovered>, list: seq<Discovered>, range: PhysicalRange, id: nat) {
    && Names(list, range, id)
    && (forall owner: nat :: SoleOwner(inputs, range, owner) ==> id == owner)
    && ((forall owner: nat :: !SoleOwner(inputs, range, owner)) ==>
          |inputs| <= |list| && Names(list[|inputs|..], range, id))
  }

  datatype Merge = Merge(
    list: seq<Discovered>, last: Option<nat>, resolved: map<PhysicalRange, nat>, evidence: seq<Evidence>,
    fingerprints: map<PhysicalRange, seq<Byte>>)

  ghost predicate ListRight(m: Merge, inputs: seq<Discovered>) {
    && inputs <= m.list && DistinctIds(m.list) && Largest(m.last, m.list)
    && (forall range :: range in m.resolved ==> AssignedRight(inputs, m.list, range, m.resolved[range]))
    && (forall k :: |inputs| <= k < |m.list| ==> AddedFor(m, m.list[k]))
  }

  /** An added candidate is there for some range of the evidence. */
  ghost predicate AddedFor(m: Merge, d: Discovered) {
    RangeOf(d.candidate).Some? && RangeOf(d.candidate).value in m.resolved &&
      m.resolved[RangeOf(d.candidate).value] == d.candidate.id
  }

  ghost predicate EvidenceRight(m: Merge, items: seq<Evidence>) {
    && m.resolved.Keys == m.fingerprints.Keys
    && (forall item :: item in items ==>
          RangeOfItem(item) in m.fingerprints && m.fingerprints[RangeOfItem(item)] == item.contentSha256)
    && (forall range :: range in m.fingerprints ==> Backed(items, range, m.fingerprints[range]))
    && (forall range :: range in m.fingerprints ==> Backed(m.evidence, range, m.fingerprints[range]))
    && (forall k :: 0 <= k < |m.evidence| ==> Filed(m, m.evidence[k]))
    && (forall j, k :: 0 <= j < k < |m.evidence| ==> RangeOfItem(m.evidence[j]) != RangeOfItem(m.evidence[k]))
  }

  ghost predicate Backed(items: seq<Evidence>, range: PhysicalRange, sha256: seq<Byte>) {
    exists item :: item in items && RangeOfItem(item) == range && item.contentSha256 == sha256
  }

  ghost predicate Filed(m: Merge, item: Evidence) {
    var range := RangeOfItem(item);
    range in m.resolved && range in m.fingerprints && item.candidateId == m.resolved[range] &&
      item.contentSha256 == m.fingerprints[range]
  }

  /** `resolved_carve_ranges` first, then the sole metadata owner, then a new id above all others. */
  method AssignId(m: Merge, owners: Owners, ghost inputs: seq<Discovered>, d: Discovered, range: PhysicalRange)
    returns (r: Option<Merge>)
    requires ListRight(m, inputs) && Tabulates(owners, inputs) && RangeOf(d.candidate) == Some(range)
    ensures r.None? <==> NeedsId(m, inputs, range) && Highest(m.last) + 1 >= U64_LIMIT
    ensures r.Some? ==> ListRight(r.value, inputs) && Resolves(m, r.value, range)
    ensures r.Some? ==> Highest(r.value.last) == Highest(m.last) + if NeedsId(m, inputs, range) then 1 else 0
  {
    hide ListRight, Tabulates, RangeOf, SoleOwner;
    if range in m.resolved {
      return Some(m);
    }
    if range in owners && owners[range].Some? {
      OwnerAssigned(m, owners, inputs, range);
      assert EntryRight(owners, inputs, range) by {
        SomeEntry(owners, inputs, range);
      }
      return Some(m.(resolved := m.resolved[range := owners[range].value]));
    }
    NoSoleOwner(owners, inputs, range);
    if m.last.Some? && m.last.value + 1 >= U64_LIMIT {
      return None;
    }
    var next := if m.last.Some? then m.last.value + 1 else 1;
    var added := d.(candidate := d.candidate.(id := next));
    CarveAdded(m, owners, inputs, d, range, next);
    return Some(m.(list := m.list + [added], last := Some(next), resolved := m.resolved[range := next]));
  }

  ghost predicate Resolves(m: Merge, after: Merge, range: PhysicalRange) {
    && after.resolved.Keys == m.resolved.Keys + {range}
    && after.evidence == m.evidence && after.fingerprints == m.fingerprints
    && (forall other :: other in m.resolved ==> after.resolved[other] == m.resolved[other])
  }

  lemma SomeEntry(owners: Owners, inputs: seq<Discovered>, range: PhysicalRange)
    requires Tabulates(owners, inputs)
    ensures EntryRight(owners, inputs, range)
  {
  }

  ghost predicate Owned(inputs: seq<Discovered>, range: PhysicalRange) {
    exists owner: nat :: SoleOwner(inputs, range, owner)
  }

  ghost predicate NeedsId(m: Merge, inputs: seq<Discovered>, range: PhysicalRange) {
    range !in m.resolved && !Owned(inputs, range)
  }

  /** The carved ranges that no metadata candidate owns alone: each takes one new id. */
  ghost function NewRanges(inputs: seq<Discovered>, items: seq<Evidence>): set<PhysicalRange> {
    set item | item in items && !Owned(inputs, RangeOfItem(item)) :: RangeOfItem(item)
  }

  lemma NewRangesSnoc(m: Merge, inputs: seq<Discovered>, items: seq<Evidence>, item: Evidence)
    requires EvidenceRight(m, items)
    ensures |NewRanges(inputs, items + [item])|
      == |NewRanges(inputs, items)| + if NeedsId(m, inputs, RangeOfItem(item)) then 1 else 0
  {
    hide Owned, EvidenceRight, NewRanges;
    NewRangesAdd(inputs, items, item);
    if Owned(inputs, RangeOfItem(item)) {
      assert NewRanges(inputs, items) + {} == NewRanges(inputs, items);
    } else {
      KnownRange(m, inputs, items, RangeOfItem(item));
      AddedSize(NewRanges(inputs, items), RangeOfItem(item));
    }
  }

  lemma AddedSize<T>(s: set<T>, x: T)
    ensures |s + {x}| == |s| + if x in s then 0 else 1
  {
    if x in s {
      assert s + {x} == s;
    }
  }

  lemma NewRangesAdd(inputs: seq<Discovered>, items: seq<Evidence>, item: Evidence)
    ensures NewRanges(inputs, items + [item])
      == NewRanges(inputs, items) + if Owned(inputs, RangeOfItem(item)) then {} else {RangeOfItem(item)}
  {
    hide Owned;
  }

  /** Among the ranges without an owner, the resolved ones are those of the items so far. */
  lemma KnownRange(m: Merge, inputs: seq<Discovered>, items: seq<Evidence>, range: PhysicalRange)
    requires EvidenceRight(m, items) && !Owned(inputs, range)
    ensures range in NewRanges(inputs, items) <==> range in m.resolved
  {
    hide Owned, Filed;
    if range in m.resolved {
      assert Backed(items, range, m.fingerprints[range]);
      var known :| known in items && RangeOfItem(known) == range && known.contentSha256 == m.fingerprints[range];
      assert range in NewRanges(inputs, items);
    }
    if range in NewRanges(inputs, items) {
      var known :| known in items && RangeOfItem(known) == range;
      assert RangeOfItem(known) in m.fingerprints;
    }
  }

  lemma {:induction false} NewRangesGrow(inputs: seq<Discovered>, items: seq<Evidence>, k: nat)
    requires k <= |items|
    ensures |NewRanges(inputs, items[..k])| <= |NewRanges(inputs, items)|
  {
    hide Owned;
    SubsetSize(NewRanges(inputs, items[..k]), NewRanges(inputs, items));
  }

  lemma {:induction false} NewRangesBound(inputs: seq<Discovered>, items: seq<Evidence>)
    ensures |NewRanges(inputs, items)| <= |items|
  {
    hide Owned;
    if items != [] {
      var rest, last := items[..|items| - 1], items[|items| - 1];
      NewRangesBound(inputs, rest);
      assert items == rest + [last];
      SubsetSize(NewRanges(inputs, items), NewRanges(inputs, rest) + {RangeOfItem(last)});
    }
  }

  lemma {:induction false} SubsetSize<T>(a: set<T>, b: set<T>)
    requires a <= b
    ensures |a| <= |b|
  {
    assert b == a + (b - a);
  }

  function Highest(last: Option<nat>): nat {
    if last.Some? then last.value else 0
  }

  lemma OwnerAssigned(m: Merge, owners: Owners, inputs: seq<Discovered>, range: PhysicalRange)
    requires ListRight(m, inputs) && Tabulates(owners, inputs) && range !in m.resolved && range in owners
    requires owners[range].Some?
    ensures ListRight(m.(resolved := m.resolved[range := owners[range].value]), inputs)
  {
    hide RangeOf, DistinctIds, Largest;
    assert EntryRight(owners, inputs, range);
    var id := owners[range].value;
    assert SoleOwner(inputs, range, id);
    var d :| d in inputs && d.discovery == NtfsMetadata && RangeOf(d.candidate) == Some(range) && d.candidate.id == id;
    assert d in m.list;
    assert AssignedRight(inputs, m.list, range, id);
    var after := m.(resolved := m.resolved[range := id]);
    forall k | |inputs| <= k < |m.list|
      ensures AddedFor(after, m.list[k])
    {
      assert AddedFor(m, m.list[k]);
    }
  }

  lemma CarveAdded(m: Merge, owners: Owners, inputs: seq<Discovered>, d: Discovered, range: PhysicalRange, next: nat)
    requires ListRight(m, inputs) && Tabulates(owners, inputs) && range !in m.resolved
    requires (range in owners ==> owners[range].None?)
    requires RangeOf(d.candidate) == Some(range) && next == if m.last.Some? then m.last.value + 1 else 1
    ensures var added := d.(candidate := d.candidate.(id := next));
      ListRight(m.(list := m.list + [added], last := Some(next), resolved := m.resolved[range := next]), inputs)
  {
    hide RangeOf, DistinctIds, Largest, Tabulates, SoleOwner, AddedFor, AssignedRight;
    var added := d.(candidate := d.candidate.(id := next));
    RangeIgnoresId(d.candidate, next);
    NoSoleOwner(owners, inputs, range);
    NewIdFits(m.last, m.list, added, next);
    var after := m.(list := m.list + [added], last := Some(next), resolved := m.resolved[range := next]);
    NewAssigned(inputs, m.list, added, range);
    forall other | other in after.resolved
      ensures AssignedRight(inputs, after.list, other, after.resolved[other])
    {
      if other != range {
        AssignedStays(inputs, m.list, added, other, m.resolved[other]);
      }
    }
    AddedStays(m, after, inputs, range);
  }

  lemma NewIdFits(last: Option<nat>, list: seq<Discovered>, added: Discovered, next: nat)
    requires DistinctIds(list) && Largest(last, list) && added.candidate.id == next
    requires next == if last.Some? then last.value + 1 else 1
    ensures DistinctIds(list + [added]) && Largest(Some(next), list + [added])
  {
    assert added in list + [added];
    assert forall k :: 0 <= k < |list| ==> list[k] in list;
  }

  lemma NewAssigned(inputs: seq<Discovered>, list: seq<Discovered>, added: Discovered, range: PhysicalRange)
    requires inputs <= list && RangeOf(added.candidate) == Some(range)
    requires forall owner: nat :: !SoleOwner(inputs, range, owner)
    ensures AssignedRight(inputs, list + [added], range, added.candidate.id)
  {
    hide RangeOf, SoleOwner;
    assert added in list + [added];
    assert (list + [added])[|inputs|..] == list[|inputs|..] + [added];
    assert added in list[|inputs|..] + [added];
  }

  lemma AddedStays(m: Merge, after: Merge, inputs: seq<Discovered>, range: PhysicalRange)
    requires |inputs| <= |m.list| < |after.list| && m.list <= after.list && |after.list| == |m.list| + 1
    requires forall k :: |inputs| <= k < |m.list| ==> AddedFor(m, m.list[k])
    requires range !in m.resolved && after.resolved == m.resolved[range := after.list[|m.list|].candidate.id]
    requires RangeOf(after.list[|m.list|].candidate) == Some(range)
    ensures forall k :: |inputs| <= k < |after.list| ==> AddedFor(after, after.list[k])
  {
    hide RangeOf;
    forall k | |inputs| <= k < |after.list|
      ensures AddedFor(after, after.list[k])
    {
      assert k < |m.list| ==> AddedFor(m, m.list[k]) && after.list[k] == m.list[k];
    }
  }

  lemma RangeIgnoresId(c: Candidate, id: nat)
    ensures RangeOf(c.(id := id)) == RangeOf(c)
  {
    assert forall k :: 0 <= k < |c.extents| ==> Continues(c.(id := id), k) == Continues(c, k);
  }

  lemma NoSoleOwner(owners: Owners, inputs: seq<Discovered>, range: PhysicalRange)
    requires Tabulates(owners, inputs) && (range in owners ==> owners[range].None?)
    ensures forall owner: nat :: !SoleOwner(inputs, range, owner)
  {
    hide Owns;
    assert EntryRight(owners, inputs, range);
  }

  lemma AssignedStays(inputs: seq<Discovered>, list: seq<Discovered>, added: Discovered, range: PhysicalRange, id: nat)
    requires inputs <= list && AssignedRight(inputs, list, range, id)
    ensures AssignedRight(inputs, list + [added], range, id)
  {
    hide RangeOf, SoleOwner;
    assert forall d :: d in list ==> d in list + [added];
    assert (list + [added])[|inputs|..] == list[|inputs|..] + [added];
    assert forall d :: d in list[|inputs|..] ==> d in list[|inputs|..] + [added];
  }

  /** The evidence half of a merge step: the first item of a range is kept, later ones must agree with it. */
  function File(m: Merge, item: Evidence): Merge
    requires RangeOfItem(item) in m.resolved
  {
    var range := RangeOfItem(item);
    if range in m.fingerprints then m
    else
      m.(fingerprints := m.fingerprints[range := item.contentSha256],
         evidence := m.evidence + [item.(candidateId := m.resolved[range])])
  }

  lemma FileNew(m: Merge, after: Merge, items: seq<Evidence>, item: Evidence)
    requires EvidenceRight(m, items) && Resolves(m, after, RangeOfItem(item)) && RangeOfItem(item) !in m.fingerprints
    ensures EvidenceRight(File(after, item), items + [item])
  {
    var range, filed := RangeOfItem(item), File(after, item);
    FileNewBacked(m, after, items, item);
    FileNewFiled(m, after, items, item);
    hide Backed, Filed;
  }

  lemma FileNewBacked(m: Merge, after: Merge, items: seq<Evidence>, item: Evidence)
    requires EvidenceRight(m, items) && Resolves(m, after, RangeOfItem(item)) && RangeOfItem(item) !in m.fingerprints
    ensures var filed := File(after, item);
      forall range :: range in filed.fingerprints ==>
          Backed(items + [item], range, filed.fingerprints[range]) &&
            Backed(filed.evidence, range, filed.fingerprints[range])
  {
    var filed := File(after, item);
    var last := filed.evidence[|m.evidence|];
    assert item in items + [item] && last in filed.evidence;
    assert Backed(items + [item], RangeOfItem(item), item.contentSha256) &&
      Backed(filed.evidence, RangeOfItem(item), item.contentSha256);
    hide Backed, Filed;
    forall range | range in filed.fingerprints
      ensures Backed(items + [item], range, filed.fingerprints[range])
      ensures Backed(filed.evidence, range, filed.fingerprints[range])
    {
      if range != RangeOfItem(item) {
        BackedMore(items, item, range, m.fingerprints[range]);
        BackedMore(m.evidence, last, range, m.fingerprints[range]);
      }
    }
  }

  lemma FileNewFiled(m: Merge, after: Merge, items: seq<Evidence>, item: Evidence)
    requires EvidenceRight(m, items) && Resolves(m, after, RangeOfItem(item)) && RangeOfItem(item) !in m.fingerprints
    ensures var filed := File(after, item);
      && (forall k :: 0 <= k < |filed.evidence| ==> Filed(filed, filed.evidence[k]))
      && forall j, k :: 0 <= j < k < |filed.evidence| ==>
           RangeOfItem(filed.evidence[j]) != RangeOfItem(filed.evidence[k])
  {
    hide Backed;
    var filed := File(after, item);
    forall k | 0 <= k < |filed.evidence|
      ensures Filed(filed, filed.evidence[k])
      ensures k < |m.evidence| ==> RangeOfItem(filed.evidence[k]) != RangeOfItem(item)
    {
      assert k < |m.evidence| ==> Filed(m, m.evidence[k]);
    }
  }

  lemma BackedMore(items: seq<Evidence>, more: Evidence, range: PhysicalRange, sha256: seq<Byte>)
    requires Backed(items, range, sha256)
    ensures Backed(items + [more], range, sha256)
  {
    var item :| item in items && RangeOfItem(item) == range && item.contentSha256 == sha256;
    assert item in items + [more];
  }

  lemma FileAgain(m: Merge, items: seq<Evidence>, item: Evidence)
    requires EvidenceRight(m, items) && RangeOfItem(item) in m.fingerprints
    requires m.fingerprints[RangeOfItem(item)] == item.contentSha256
    ensures EvidenceRight(m, items + [item])
  {
    forall range | range in m.fingerprints
      ensures Backed(items + [item], range, m.fingerprints[range])
    {
      BackedMore(items, item, range, m.fingerprints[range]);
    }
  }

  lemma Conflicting(m: Merge, items: seq<Evidence>, item: Evidence)
    requires EvidenceRight(m, items) && RangeOfItem(item) in m.fingerprints
    requires m.fingerprints[RangeOfItem(item)] != item.contentSha256
    ensures Conflict(items + [item])
  {
    var range := RangeOfItem(item);
    assert Backed(items, range, m.fingerprints[range]);
    var first :| first in items && RangeOfItem(first) == range && first.contentSha256 == m.fingerprints[range];
    assert first in items + [item] && item in items + [item];
  }

  lemma NoConflict(m: Merge, items: seq<Evidence>)
    requires EvidenceRight(m, items)
    ensures !Conflict(items)
  {
  }

  /** The highest id once the range of one more item is accounted for. */
  ghost function Grown(m: Merge, inputs: seq<Discovered>, items: seq<Evidence>, item: Evidence): int {
    Highest(m.last) + |NewRanges(inputs, items + [item])| - |NewRanges(inputs, items)|
  }

  ghost predicate OutOfIds(m: Merge, inputs: seq<Discovered>, items: seq<Evidence>, item: Evidence) {
    Grown(m, inputs, items, item) > Highest(m.last) && Grown(m, inputs, items, item) >= U64_LIMIT
  }

  /** One turn of the merge loop. */
  method MergeItem(m: Merge, owners: Owners, ghost inputs: seq<Discovered>, ghost items: seq<Evidence>,
                   d: Discovered, item: Evidence)
    returns (r: Option<Merge>)
    requires ListRight(m, inputs) && EvidenceRight(m, items) && Tabulates(owners, inputs)
    ensures r.None? ==> !Matches(d, item) || Conflict(items + [item]) || OutOfIds(m, inputs, items, item)
    ensures r.Some? ==> Matches(d, item) && ListRight(r.value, inputs) && EvidenceRight(r.value, items + [item])
    ensures r.Some? ==> Highest(r.value.last) == Grown(m, inputs, items, item)
    ensures r.Some? && Highest(r.value.last) > Highest(m.last) ==> Highest(r.value.last) < U64_LIMIT
  {
    NewRangesSnoc(m, inputs, items, item);
    hide ListRight, EvidenceRight, Tabulates, RangeOf, Conflict, NewRanges, NeedsId;
    var range := RangeOfItem(item);
    var exact := ExactPhysicalRange(d.candidate);
    if d.discovery != Carving || d.candidate.id != item.candidateId || d.recordRef != item.physicalOffset ||
      d.candidate.size != item.len ||
       exact != Some(range) {
      return None;
    }
    var next := AssignId(m, owners, inputs, d, range);
    if next.None? {
      return None;
    }
    SameKeys(m, items);
    if range in m.fingerprints && m.fingerprints[range] != item.contentSha256 {
      Conflicting(m, items, item);
      return None;
    }
    if range in m.fingerprints {
      FileAgain(m, items, item);
      SameMerge(m, next.value, inputs, items + [item], range);
    } else {
      FileNew(m, next.value, items, item);
      FileKeepsList(next.value, item, inputs);
    }
    return Some(File(next.value, item));
  }

  lemma SameKeys(m: Merge, items: seq<Evidence>)
    requires EvidenceRight(m, items)
    ensures m.resolved.Keys == m.fingerprints.Keys
  {
  }

  /** An already resolved range changes nothing the evidence depends on. */
  lemma SameMerge(m: Merge, after: Merge, inputs: seq<Discovered>, items: seq<Evidence>, range: PhysicalRange)
    requires EvidenceRight(m, items) && Resolves(m, after, range) && range in m.resolved
    ensures EvidenceRight(after, items)
  {
    assert after.resolved.Keys == m.resolved.Keys;
    assert after.resolved == m.resolved;
    forall k | 0 <= k < |after.evidence|
      ensures Filed(after, after.evidence[k])
    {
      assert Filed(m, m.evidence[k]);
    }
  }

  lemma FileKeepsList(m: Merge, item: Evidence, inputs: seq<Discovered>)
    requires ListRight(m, inputs) && RangeOfItem(item) in m.resolved
    ensures ListRight(File(m, item), inputs)
  {
    hide RangeOf, AssignedRight;
    forall k | |inputs| <= k < |m.list|
      ensures AddedFor(File(m, item), m.list[k])
    {
      assert AddedFor(m, m.list[k]);
    }
  }

  ghost predicate OnePerRange(evidence: seq<Evidence>) {
    forall j, k :: 0 <= j < k < |evidence| ==> RangeOfItem(evidence[j]) != RangeOfItem(evidence[k])
  }

  ghost predicate Evidenced(evidence: seq<Evidence>, d: Discovered) {
    exists e :: e in evidence && e.candidateId == d.candidate.id && RangeOf(d.candidate) == Some(RangeOfItem(e))
  }

  /**
   * What a merge promises: the input candidates first and unchanged, ids distinct, one item of evidence per carved
   * range with the digest it came with, assigned to the right candidate, and no added candidate without evidence.
   */
  ghost predicate Merged(inputs: seq<Discovered>, items: seq<Evidence>, list: seq<Discovered>,
                         evidence: seq<Evidence>)
  {
    && inputs <= list && DistinctIds(list) && OnePerRange(evidence)
    && (forall e :: e in evidence ==>
          Backed(items, RangeOfItem(e), e.contentSha256) && AssignedRight(inputs, list, RangeOfItem(e), e.candidateId))
    && (forall item :: item in items ==> Backed(evidence, RangeOfItem(item), item.contentSha256))
    && (forall k :: |inputs| <= k < |list| ==> Evidenced(evidence, list[k]))
  }

  lemma MergeDone(m: Merge, inputs: seq<Discovered>, items: seq<Evidence>)
    requires ListRight(m, inputs) && EvidenceRight(m, items)
    ensures Merged(inputs, items, m.list, m.evidence)
  {
    hide RangeOf, AssignedRight, DistinctIds, Largest;
    forall e | e in m.evidence
      ensures Backed(items, RangeOfItem(e), e.contentSha256)
      ensures AssignedRight(inputs, m.list, RangeOfItem(e), e.candidateId)
    {
      assert Filed(m, e);
    }
    forall k | |inputs| <= k < |m.list|
      ensures Evidenced(m.evidence, m.list[k])
    {
      assert AddedFor(m, m.list[k]);
      var range := RangeOf(m.list[k].candidate).value;
      assert Backed(m.evidence, range, m.fingerprints[range]);
      var e :| e in m.evidence && RangeOfItem(e) == range && e.contentSha256 == m.fingerprints[range];
      assert Filed(m, e);
    }
  }

  /** Everything a merge can be refused for, short of running out of ids. */
  ghost predicate Malformed(inputs: seq<Discovered>, carved: seq<Discovered>, items: seq<Evidence>) {
    || |carved| != |items| || !DistinctIds(inputs) || Conflict(items)
    || exists k :: 0 <= k < |carved| && k < |items| && !Matches(carved[k], items[k])
  }

  /** Some range needs a new id, and counting up from the largest input id leaves 64 bits before the last of them. */
  ghost predicate IdsExhausted(inputs: seq<Discovered>, items: seq<Evidence>) {
    exists top: Option<nat> :: Largest(top, inputs) && RunsOut(top, inputs, items)
  }

  ghost predicate RunsOut(top: Option<nat>, inputs: seq<Discovered>, items: seq<Evidence>) {
    NewRanges(inputs, items) != {} && Highest(top) + |NewRanges(inputs, items)| >= U64_LIMIT
  }

  lemma LargestUnique(a: Option<nat>, b: Option<nat>, list: seq<Discovered>)
    requires Largest(a, list) && Largest(b, list)
    ensures a == b
  {
  }

  /** `merge_carved_evidence`. */
  method MergeCarvedEvidence(inputs: seq<Discovered>, carved: seq<Discovered>, items: seq<Evidence>)
    returns (r: Option<(seq<Discovered>, seq<Evidence>)>)
    ensures r.Some? ==> Merged(inputs, items, r.value.0, r.value.1)
    ensures r.None? <==> Malformed(inputs, carved, items) || IdsExhausted(inputs, items)
  {
    if |carved| != |items| {
      return None;
    }
    var tabulated := TabulateOwners(inputs);
    if tabulated.None? {
      return None;
    }
    var (owners, top) := tabulated.value;
    var merge := MergeItems(inputs, owners, top, carved, items);
    if merge.None? {
      return None;
    }
    hide ListRight, EvidenceRight, DistinctIds, Conflict, Matches, Merged, IdsExhausted;
    MergeDone(merge.value, inputs, items);
    NoConflict(merge.value, items);
    return Some((merge.value.list, merge.value.evidence));
  }

  /** The merge loop. */
  method MergeItems(inputs: seq<Discovered>, owners: Owners, top: Option<nat>, carved: seq<Discovered>,
                    items: seq<Evidence>)
    returns (r: Option<Merge>)
    requires |carved| == |items| && DistinctIds(inputs) && Tabulates(owners, inputs) && Largest(top, inputs)
    ensures r.Some? ==> ListRight(r.value, inputs) && EvidenceRight(r.value, items)
    ensures r.Some? ==> !IdsExhausted(inputs, items) && forall k :: 0 <= k < |items| ==> Matches(carved[k], items[k])
    ensures r.None? ==> Malformed(inputs, carved, items) || IdsExhausted(inputs, items)
  {
    hide ListRight, EvidenceRight, Tabulates, DistinctIds, Conflict, Matches, Largest, Malformed, IdsExhausted,
         MergeStart,
         NewRanges;
    var m := MergeStart(inputs, top);
    MergeStarts(inputs, top);
    ghost var done: seq<Evidence> := [];
    for k := 0 to |items|
      invariant ListRight(m, inputs) && EvidenceRight(m, done) && done == items[..k]
      invariant forall j :: 0 <= j < k ==> Matches(carved[j], items[j])
      invariant Counted(m, top, inputs, done)
    {
      var next := MergeItem(m, owners, inputs, done, carved[k], items[k]);
      done := done + [items[k]];
      assert done == items[..k + 1];
      if next.None? {
        RefusedStep(m, inputs, carved, items, k, top);
        return None;
      }
      m := next.value;
    }
    assert done == items;
    NotExhausted(m, top, inputs, items);
    return Some(m);
  }

  /** New ids were counted up from the largest input id, one for each new range. */
  ghost predicate Counted(m: Merge, top: Option<nat>, inputs: seq<Discovered>, done: seq<Evidence>) {
    && Highest(m.last) == Highest(top) + |NewRanges(inputs, done)|
    && (NewRanges(inputs, done) != {} ==> Highest(m.last) < U64_LIMIT)
  }

  lemma NotExhausted(m: Merge, top: Option<nat>, inputs: seq<Discovered>, items: seq<Evidence>)
    requires Counted(m, top, inputs, items) && Largest(top, inputs)
    ensures !IdsExhausted(inputs, items)
  {
    hide NewRanges, Largest;
    forall other: Option<nat> | Largest(other, inputs)
      ensures !RunsOut(other, inputs, items)
    {
      LargestUnique(other, top, inputs);
    }
  }

  function MergeStart(inputs: seq<Discovered>, top: Option<nat>): Merge {
    Merge(inputs, top, map[], [], map[])
  }

  lemma MergeStarts(inputs: seq<Discovered>, top: Option<nat>)
    requires DistinctIds(inputs) && Largest(top, inputs)
    ensures ListRight(MergeStart(inputs, top), inputs) && EvidenceRight(MergeStart(inputs, top), [])
    ensures Counted(MergeStart(inputs, top), top, inputs, [])
  {
  }

  lemma RefusedStep(m: Merge, inputs: seq<Discovered>, carved: seq<Discovered>, items: seq<Evidence>, k: nat,
                    top: Option<nat>)
    requires |carved| == |items| && k < |items| && Largest(top, inputs) && Counted(m, top, inputs, items[..k])
    requires items[..k + 1] == items[..k] + [items[k]]
    requires !Matches(carved[k], items[k]) || Conflict(items[..k + 1]) || OutOfIds(m, inputs, items[..k], items[k])
    ensures Malformed(inputs, carved, items) || IdsExhausted(inputs, items)
  {
    hide Matches, Largest, DistinctIds, NewRanges;
    NewRangesGrow(inputs, items, k + 1);
    if Conflict(items[..k + 1]) {
      ConflictMore(items, k + 1);
    }
  }

  lemma ConflictMore(items: seq<Evidence>, k: nat)
    requires k <= |items| && Conflict(items[..k])
    ensures Conflict(items)
  {
  }
}
