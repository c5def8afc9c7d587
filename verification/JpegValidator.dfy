/** The validator object: fixed memory, fed in arbitrary chunks (crates/carving/src/jpeg.rs). */
module JpegValidators {
  import opened Common
  import opened Jpeg

  datatype Status = NeedMore | Valid | Invalid

  /** The verdict on one consumed byte. */
  datatype Verdict = Continue | Accept | Reject

  class JpegValidator {
    var state: State
    var sawSof: bool
    var sawSos: bool
    var processedBytes: nat

    constructor ()
      ensures View() == START && processedBytes == 0
    {
      state, sawSof, sawSos, processedBytes := SoiPrefix, false, false, 0;
    }

    function View(): Core
      reads this
    {
      Core(state, sawSof, sawSos)
    }

    /** A verdict and the new state agree with the step function; a final verdict leaves the state to `Feed`. */
    ghost predicate Agrees(verdict: Verdict, next: Core)
      reads this
    {
      match verdict
      case Continue => View() == next && Live(next)
      case Accept => View().(state := Finished) == next
      case Reject => View().(state := Rejected) == next
    }

    method HandleMarkerByte(marker: Byte) returns (verdict: Verdict)
      modifies this`state
      ensures Agrees(verdict, HandleMarker(old(View()), marker))
    {
      if marker == 0x01 {
        state := MarkerPrefix;
        return Continue;
      }
      if marker == 0xD8 || 0xD0 <= marker <= 0xD7 || marker == 0x00 || 0x02 <= marker <= 0xBF {
        return Reject;
      }
      if marker == 0xD9 {
        return if sawSof && sawSos then Accept else Reject;
      }
      if 0xC0 <= marker <= 0xFE {
        state := LengthHigh(marker);
        return Continue;
      }
      return Reject;
    }

    method FinishOpenSegment(segment: SegmentState) returns (verdict: Verdict)
      modifies this`state, this`sawSof, this`sawSos
      ensures Agrees(verdict, FinishSegment(old(View()), segment))
    {
      if IsSof(segment.marker) {
        if !ValidSof(segment.prefix, segment.declaredLen) {
          return Reject;
        }
        sawSof := true;
        state := MarkerPrefix;
        return Continue;
      }
      if segment.marker == 0xDA {
        if !sawSof || !ValidSos(segment.prefix, segment.declaredLen) {
          return Reject;
        }
        sawSos := true;
        state := Entropy;
        return Continue;
      }
      state := MarkerPrefix;
      return Continue;
    }

    method Consume(byte: Byte) returns (verdict: Verdict)
      modifies this`state, this`sawSof, this`sawSos
      ensures Agrees(verdict, Step(old(View()), byte))
    {
      match state {
        case SoiPrefix =>
          if byte != 0xFF {
            return Reject;
          }
          state := SoiCode;
          return Continue;
        case SoiCode =>
          if byte != 0xD8 {
            return Reject;
          }
          state := MarkerPrefix;
          return Continue;
        case MarkerPrefix =>
          if byte != 0xFF {
            return Reject;
          }
          state := MarkerCode;
          return Continue;
        case MarkerCode =>
          if byte == 0xFF {
            return Continue;
          }
          verdict := HandleMarkerByte(byte);
        case LengthHigh(marker) =>
          state := LengthLow(marker, byte);
          return Continue;
        case LengthLow(marker, high) =>
          var declaredLen := BigEndian(high, byte);
          if declaredLen < 2 {
            return Reject;
          }
          var segment := SegmentState(marker, declaredLen, declaredLen - 2, []);
          if segment.remaining == 0 {
            verdict := FinishOpenSegment(segment);
          } else {
            state := InSegment(segment);
            return Continue;
          }
        case InSegment(segment) =>
          if segment.remaining == 0 {
            return Reject;
          }
          var captured := if |segment.prefix| < 6 then segment.prefix + [byte] else segment.prefix;
          var advanced := segment.(prefix := captured, remaining := segment.remaining - 1);
          if advanced.remaining == 0 {
            verdict := FinishOpenSegment(advanced);
          } else {
            state := InSegment(advanced);
            return Continue;
          }
        case Entropy =>
          if byte == 0xFF {
            state := EntropyMarker;
          }
          return Continue;
        case EntropyMarker =>
          if byte == 0xFF {
            return Continue;
          }
          if byte == 0x00 || 0xD0 <= byte <= 0xD7 {
            state := Entropy;
            return Continue;
          }
          verdict := HandleMarkerByte(byte);
        case Finished => return Accept;
        case Rejected => return Reject;
      }
    }

    /**
     * Consumes a prefix of `bytes`, each byte once, stopping at the first final verdict. However the input was cut, the
     * validator is where one run over all the bytes would be, unless the 64-bit byte counter overflowed.
     */
    method Feed(bytes: seq<Byte>) returns (consumed: nat, status: Status)
      modifies this
      ensures consumed <= |bytes|
      ensures status == NeedMore ==> consumed == |bytes| && Live(View()) && View() == Run(old(View()), bytes)
      ensures status == Valid ==>
        View().state.Finished? && View() == Run(old(View()), bytes) == Run(old(View()), bytes[..consumed])
      ensures status == Invalid ==> View().state.Rejected?
      ensures status == Invalid && old(processedBytes) + |bytes| < U64_LIMIT ==> View() == Run(old(View()), bytes)
      ensures status != NeedMore && consumed > 0 ==> Live(Run(old(View()), bytes[..consumed - 1]))
      ensures processedBytes <= old(processedBytes) + consumed
      ensures status != Invalid ==> processedBytes == old(processedBytes) + consumed
      ensures old(Live(View())) && status != NeedMore ==> consumed > 0
    {
      hide Run, Step;
      ghost var start := View();
      if state.Finished? {
        RunDead(start, bytes);
        RunDead(start, bytes[..0]);
        return 0, Valid;
      }
      if state.Rejected? {
        RunDead(start, bytes);
        return 0, Invalid;
      }
      RunNothing(start);
      assert bytes[..0] == [];
      for index := 0 to |bytes|
        invariant View() == Run(start, bytes[..index]) && Live(View())
        invariant processedBytes == old(processedBytes) + index
      {
        assert bytes[..index + 1] == bytes[..index] + [bytes[index]];
        RunSnoc(start, bytes[..index], bytes[index]);
        assert bytes[..index + 1] + bytes[index + 1..] == bytes;
        RunConcat(start, bytes[..index + 1], bytes[index + 1..]);
        var verdict := Consume(bytes[index]);
        if processedBytes + 1 >= U64_LIMIT {
          state := Rejected;
          return index + 1, Invalid;
        }
        processedBytes := processedBytes + 1;
        match verdict {
          case Continue =>
          case Accept =>
            state := Finished;
            RunDead(View(), bytes[index + 1..]);
            return index + 1, Valid;
          case Reject =>
            state := Rejected;
            RunDead(View(), bytes[index + 1..]);
            return index + 1, Invalid;
        }
      }
      assert bytes[..|bytes|] == bytes;
      return |bytes|, NeedMore;
    }
  }
}
