/** What a JPEG carve must find: every grammar-accepted image inside a region, nested ones included. */
module CarveSpec {
  import opened Common
  import opened JpegGrammar
  import opened Jpeg

  /** An image at absolute offset `offset`. */
  datatype Hit = Hit(offset: nat, len: nat)

  /** The validator accepts exactly the `len` bytes at `offset`, and they lie before `end`. */
  ghost predicate ImageAt(data: seq<Byte>, hit: Hit, end: nat) {
    hit.offset + hit.len <= end <= |data| && AcceptedAt(data[hit.offset..hit.offset + hit.len])
  }

  /** At most one length is accepted at an offset. */
  lemma OneLength(data: seq<Byte>, a: Hit, b: Hit, end: nat)
    requires ImageAt(data, a, end) && ImageAt(data, b, end) && a.offset == b.offset
    ensures a == b
  {
    var x, y := data[a.offset..a.offset + a.len], data[b.offset..b.offset + b.len];
    if a.len < b.len {
      assert y[..a.len] == x;
      PrefixFree(y, a.len);
    } else if b.len < a.len {
      assert x[..b.len] == y;
      PrefixFree(x, b.len);
    }
  }

  ghost function HitsAt(data: seq<Byte>, offset: nat, end: nat): (hits: seq<Hit>)
    ensures |hits| <= 1 && forall h :: h in hits <==> h.offset == offset && ImageAt(data, h, end)
    ensures (forall n: nat :: !ImageAt(data, Hit(offset, n), end)) ==> hits == []
  {
    if n: nat :| ImageAt(data, Hit(offset, n), end) then
      OnlyHit(data, offset, n, end);
      [Hit(offset, n)]
    else []
  }

  lemma OnlyHit(data: seq<Byte>, offset: nat, n: nat, end: nat)
    requires ImageAt(data, Hit(offset, n), end)
    ensures forall h: Hit :: h.offset == offset && ImageAt(data, h, end) ==> h == Hit(offset, n)
  {
    forall h: Hit | h.offset == offset && ImageAt(data, h, end)
      ensures h == Hit(offset, n)
    {
      OneLength(data, h, Hit(offset, n), end);
    }
  }

  /** All images starting in `[lo, hi)`, in ascending order of offset. */
  ghost function HitsIn(data: seq<Byte>, lo: nat, hi: nat, end: nat): seq<Hit>
    decreases hi - lo
  {
    if hi <= lo then [] else HitsIn(data, lo, hi - 1, end) + HitsAt(data, hi - 1, end)
  }

  /** The enumeration is exactly the set of images, each once and in order. */
  lemma {:induction false} HitsInComplete(data: seq<Byte>, lo: nat, hi: nat, end: nat)
    ensures forall h: Hit :: h in HitsIn(data, lo, hi, end) <==> lo <= h.offset < hi && ImageAt(data, h, end)
    ensures Ascending(HitsIn(data, lo, hi, end))
    decreases hi - lo
  {
    hide ImageAt, HitsAt;
    if lo < hi {
      HitsInComplete(data, lo, hi - 1, end);
      var before, last := HitsIn(data, lo, hi - 1, end), HitsAt(data, hi - 1, end);
      assert forall h: Hit :: h in before + last <==> h in before || h in last;
      assert forall i :: 0 <= i < |before| ==> before[i] in before;
      assert forall i :: 0 <= i < |last| ==> last[i] in last;
    }
  }

  ghost predicate Ascending(hits: seq<Hit>) {
    forall i, j :: 0 <= i < j < |hits| ==> hits[i].offset < hits[j].offset
  }

  /** An image starts with the two SOI bytes. */
  lemma StartsWithSoi(bytes: seq<Byte>)
    requires AcceptedAt(bytes)
    ensures |bytes| >= 2 && bytes[0] == 0xFF && bytes[1] == 0xD8
  {
    var image := AcceptedIsImage(bytes);
    assert bytes[..2] == SOI;
  }

  /** No signature at the offset, or only one byte left: nothing to find there. */
  lemma NoSignatureNoHits(data: seq<Byte>, offset: nat, end: nat)
    requires end <= |data|
    requires offset + 1 >= end || data[offset] != 0xFF || data[offset + 1] != 0xD8
    ensures HitsAt(data, offset, end) == []
  {
    hide ImageAt, HitsAt;
    forall n: nat | ImageAt(data, Hit(offset, n), end)
      ensures false
    {
      ImageStarts(data, Hit(offset, n), end);
    }
  }

  lemma ImageStarts(data: seq<Byte>, hit: Hit, end: nat)
    requires ImageAt(data, hit, end)
    ensures hit.offset + 1 < end <= |data| && data[hit.offset] == 0xFF && data[hit.offset + 1] == 0xD8
  {
    hide AcceptedAt;
    StartsWithSoi(data[hit.offset..hit.offset + hit.len]);
  }

  /** A rejected prefix, or a run still open at the region's end, means no image starts here. */
  lemma NoImage(data: seq<Byte>, offset: nat, k: nat, end: nat)
    requires offset + k <= end <= |data|
    requires var c := Run(START, data[offset..offset + k]);
      c.state.Rejected? || (Live(c) && offset + k == end)
    ensures HitsAt(data, offset, end) == []
  {
    hide Run, AcceptedAt, HitsAt;
    forall n: nat
      ensures !ImageAt(data, Hit(offset, n), end)
    {
      if offset + n <= end {
        NotThisLength(data, offset, k, n);
      }
    }
  }

  lemma NotThisLength(data: seq<Byte>, offset: nat, k: nat, n: nat)
    requires offset + k <= |data| && offset + n <= |data|
    requires var c := Run(START, data[offset..offset + k]); c.state.Rejected? || (Live(c) && n <= k)
    ensures !AcceptedAt(data[offset..offset + n])
  {
    var s, bytes := data[offset..offset + k], data[offset..offset + n];
    if n <= k {
      assert s[..n] == bytes && s == s[..n] + s[n..];
      RunConcat(START, s[..n], s[n..]);
      if !Live(Run(START, bytes)) {
        RunDead(Run(START, bytes), s[n..]);
      }
    } else {
      assert bytes[..k] == s && bytes == bytes[..k] + bytes[k..];
      RunConcat(START, bytes[..k], bytes[k..]);
      RunDead(Run(START, s), bytes[k..]);
    }
  }
}
