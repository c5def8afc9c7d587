/** Widening a byte range to whole sectors for raw reads (crates/io-windows/src/model.rs:718-779). */
module AlignedRead {
  import opened Common
  import opened Arithmetic

  const MAX_RAW_READ_BYTES: nat := 4 * 1024 * 1024

  datatype ReadPlanError = InvalidSectorSize | LengthTooLarge | Overflow | OutOfBounds

  datatype AlignedReadPlan = AlignedReadPlan(alignedOffset: nat, alignedLength: nat, copyOffset: nat, copyLength: nat)

  /** The multiple of `m` at or below `n`. */
  function RoundDown(n: nat, m: nat): (r: nat)
    requires m > 0
    ensures r <= n < r + m && r % m == 0
  {
    DropRemainder(n, m);
    n - n % m
  }

  lemma DropRemainder(n: nat, m: nat)
    requires m > 0
    ensures (n - n % m) % m == 0
  {
    var q := n / m;
    assert n - n % m == m * q;
    DivisionUnique(n - n % m, m, q, 0);
  }

  function PlanAlignedRead(offset: U64, requestedLength: U64, sourceLength: U64, sectorSize: U32)
    : Result<AlignedReadPlan, ReadPlanError>
  {
    if sectorSize == 0 then Err(InvalidSectorSize)
    else if requestedLength > MAX_RAW_READ_BYTES then Err(LengthTooLarge)
    else
      var requestedEnd := offset + requestedLength;
      if requestedEnd >= U64_LIMIT then Err(Overflow)
      else if requestedEnd > sourceLength then Err(OutOfBounds)
      else if requestedLength == 0 then Ok(AlignedReadPlan(offset, 0, 0, 0))
      else
        var alignedOffset := RoundDown(offset, sectorSize);
        var roundedEnd := requestedEnd + (sectorSize - 1);
        if roundedEnd >= U64_LIMIT then Err(Overflow)
        else
          var alignedEnd := RoundDown(roundedEnd, sectorSize);
          if alignedEnd > sourceLength then Err(OutOfBounds)
          else if alignedEnd < alignedOffset then Err(Overflow)
          else
            var copyOffset := offset - alignedOffset;
            if copyOffset + requestedLength > alignedEnd - alignedOffset then Err(OutOfBounds)
            else Ok(AlignedReadPlan(alignedOffset, alignedEnd - alignedOffset, copyOffset, requestedLength))
  }

  function RoundUp(n: nat, m: nat): (r: nat)
    requires m > 0
    ensures n <= r < n + m && r % m == 0
  {
    RoundDown(n + (m - 1), m)
  }

  /** A multiple of `m` that is at least `n` is at least `n` rounded up. */
  lemma RoundUpLeast(n: nat, m: nat, bound: nat)
    requires m > 0 && n <= bound && bound % m == 0
    ensures RoundUp(n, m) <= bound
  {
    hide RoundUp;
    if bound < RoundUp(n, m) {
      MultiplesFar(bound, RoundUp(n, m), m);
    }
  }

  /** Two multiples are at least `m` apart. */
  lemma MultiplesFar(a: nat, b: nat, m: nat)
    requires m > 0 && a % m == 0 && b % m == 0 && a < b
    ensures a + m <= b
  {
    var p, q := a / m, b / m;
    assert a == m * p && b == m * q;
    if p < q {
      MultiplesApart(m, p, q);
    } else if q < p {
      MultiplesApart(m, q, p);
    }
  }

  lemma RoundUpIsCeil(n: nat, m: nat)
    requires m > 0
    ensures RoundUp(n, m) == CeilDiv(n, m) * m
  {
    var k := n + m - 1;
    assert k == (k / m) * m + k % m;
  }

  /** Each refusal names its cause: a missing sector size, the length bound, 64 bits, or the end of the source. */
  lemma RefusalNames(offset: U64, requestedLength: U64, sourceLength: U64, sectorSize: U32)
    ensures var r, end := PlanAlignedRead(offset, requestedLength, sourceLength, sectorSize), offset + requestedLength;
      && (r == Err(InvalidSectorSize) <==> sectorSize == 0)
      && (r == Err(LengthTooLarge) <==> sectorSize > 0 && requestedLength > 0x40_0000)
      && (r == Err(Overflow) ==> end + (sectorSize - 1) >= 0x1_0000_0000_0000_0000)
      && (r == Err(OutOfBounds) ==>
            end > sourceLength || (requestedLength > 0 && CeilDiv(end, sectorSize) * sectorSize > sourceLength))
  {
    hide RoundDown;
    if sectorSize > 0 {
      RoundUpIsCeil(offset + requestedLength, sectorSize);
    }
  }

  /** A request for nothing is planned wherever the source has room for nothing, and reads nothing. */
  lemma NothingPlanned(offset: U64, sourceLength: U64, sectorSize: U32)
    ensures var plan := PlanAlignedRead(offset, 0, sourceLength, sectorSize);
      && (plan.Ok? <==> sectorSize > 0 && offset <= sourceLength)
      && (plan.Ok? ==> plan.value.alignedOffset == offset && plan.value.alignedLength == 0
                       && plan.value.copyOffset == 0 && plan.value.copyLength == 0)
  {
  }

  /** A plan reads whole sectors of the source, as few as possible, and the request lies inside at the copy offset. */
  lemma PlanCovers(offset: U64, requestedLength: U64, sourceLength: U64, sectorSize: U32)
    requires requestedLength > 0 && PlanAlignedRead(offset, requestedLength, sourceLength, sectorSize).Ok?
    ensures var plan := PlanAlignedRead(offset, requestedLength, sourceLength, sectorSize).value;
      && plan.alignedOffset % sectorSize == 0 && (plan.alignedOffset + plan.alignedLength) % sectorSize == 0
      && plan.alignedOffset + plan.alignedLength <= sourceLength
      && plan.alignedOffset + plan.copyOffset == offset && plan.copyLength == requestedLength
      && plan.copyOffset + plan.copyLength <= plan.alignedLength
      && plan.copyOffset < sectorSize && plan.alignedLength < plan.copyOffset + plan.copyLength + sectorSize
  {
    hide PlanAlignedRead, RoundDown, RoundUp;
    PlanFields(offset, requestedLength, sourceLength, sectorSize);
  }

  lemma PlanFields(offset: U64, requestedLength: U64, sourceLength: U64, sectorSize: U32)
    requires requestedLength > 0 && PlanAlignedRead(offset, requestedLength, sourceLength, sectorSize).Ok?
    ensures sectorSize > 0
    ensures var plan := PlanAlignedRead(offset, requestedLength, sourceLength, sectorSize).value;
      && plan.alignedOffset == RoundDown(offset, sectorSize)
      && plan.alignedOffset + plan.alignedLength == RoundUp(offset + requestedLength, sectorSize)
      && plan.alignedOffset + plan.alignedLength <= sourceLength
      && plan.copyOffset == offset - plan.alignedOffset && plan.copyLength == requestedLength
      && plan.copyOffset + plan.copyLength <= plan.alignedLength
  {
    hide RoundDown;
  }

  /** The conditions of the code, with the rounding named. */
  lemma PlanWhen(offset: U64, requestedLength: U64, sourceLength: U64, sectorSize: U32)
    requires 0 < requestedLength
    ensures PlanAlignedRead(offset, requestedLength, sourceLength, sectorSize).Ok? <==>
        sectorSize > 0 && requestedLength <= MAX_RAW_READ_BYTES && offset + requestedLength <= sourceLength &&
        offset + requestedLength + sectorSize - 1 < U64_LIMIT &&
        RoundUp(offset + requestedLength, sectorSize) <= sourceLength
  {
    hide RoundDown;
  }

  /** Exactly when a plan exists: in bounds after rounding, and the rounding itself does not overflow. */
  lemma PlanExists(offset: U64, requestedLength: U64, sourceLength: U64, sectorSize: U32)
    requires 0 < requestedLength
    ensures PlanAlignedRead(offset, requestedLength, sourceLength, sectorSize).Ok? <==>
        sectorSize > 0 && requestedLength <= MAX_RAW_READ_BYTES && offset + requestedLength <= sourceLength &&
        offset + requestedLength + sectorSize - 1 < U64_LIMIT &&
        CeilDiv(offset + requestedLength, sectorSize) * sectorSize <= sourceLength
  {
    hide PlanAlignedRead, RoundUp, CeilDiv;
    PlanWhen(offset, requestedLength, sourceLength, sectorSize);
    if sectorSize > 0 {
      RoundUpIsCeil(offset + requestedLength, sectorSize);
    }
  }

  /**
   * On a source of whole sectors, every in-bounds request is planned exactly when rounding its end does not overflow.
   */
  lemma WholeSectorsPlanned(offset: U64, requestedLength: U64, sourceLength: U64, sectorSize: U32)
    requires sectorSize > 0 && sourceLength % sectorSize == 0
    requires 0 < requestedLength <= MAX_RAW_READ_BYTES && offset + requestedLength <= sourceLength
    ensures PlanAlignedRead(offset, requestedLength, sourceLength, sectorSize).Ok? <==>
        offset + requestedLength + sectorSize - 1 < U64_LIMIT
  {
    hide PlanAlignedRead, RoundUp;
    PlanWhen(offset, requestedLength, sourceLength, sectorSize);
    RoundUpLeast(offset + requestedLength, sectorSize, sourceLength);
  }

  /** With a sector size that divides 2^64, as every real one does, no in-bounds request is refused. */
  lemma InBoundsAlwaysPlanned(offset: U64, requestedLength: U64, sourceLength: U64, sectorSize: U32)
    requires sectorSize > 0 && sourceLength % sectorSize == 0 && U64_LIMIT % sectorSize == 0
    requires 0 < requestedLength <= MAX_RAW_READ_BYTES && offset + requestedLength <= sourceLength
    ensures PlanAlignedRead(offset, requestedLength, sourceLength, sectorSize).Ok?
  {
    var m: nat := sectorSize;
    assert U64_LIMIT == m * (U64_LIMIT / m) && sourceLength == m * (sourceLength / m);
    MultiplesApart(m, sourceLength / m, U64_LIMIT / m);
    WholeSectorsPlanned(offset, requestedLength, sourceLength, sectorSize);
  }

  /** Without that, the last byte of a source of whole three-byte sectors cannot be read. */
  lemma OddSectorsRefused()
    ensures (U64_LIMIT - 1) % 3 == 0
    ensures PlanAlignedRead(U64_LIMIT - 2, 1, U64_LIMIT - 1, 3) == Err(Overflow)
  {
  }
}
