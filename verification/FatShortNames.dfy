/** FAT short names: how they are shown (crates/fs-fat/src/dir.rs) and how a fixture makes one. */
module FatShortNames {
  import opened Common

  const DELETED: Byte := 0xE5

  /** 16-bit code units. Short names contribute their bytes as units. */
  type Units = seq<U16>

  // ---------- Showing a short name ----------

  function TrimSpaces(s: seq<Byte>): seq<Byte> {
    if s != [] && s[|s| - 1] == 0x20 then TrimSpaces(s[..|s| - 1]) else s
  }

  function UntilSpace(s: seq<Byte>): seq<Byte> {
    if s == [] || s[0] == 0x20 then [] else [s[0]] + UntilSpace(s[1..])
  }

  function Widen(s: seq<Byte>): (units: Units)
    ensures |units| == |s|
  {
    seq<U16>(|s|, i requires 0 <= i < |s| => s[i])
  }

  /** `decode_short_name`, without the lossy conversion of bytes above 0x7F. */
  function DecodeShortName(raw: seq<Byte>, deleted: bool): (Units, bool)
    requires |raw| == 11
  {
    var base, ext := TrimSpaces(raw[..8]), UntilSpace(raw[8..]);
    var first :=
      if base == [] then base
      else if deleted then [0x5F] + base[1..]
      else if base[0] == 0x05 then [0xE5] + base[1..]
      else base;
    (Widen(first) + (if ext == [] then [] else [0x2E] + Widen(ext)), !deleted)
  }

  // ---------- Making a short name ----------

  predicate IsAscii(name: Units) {
    forall i :: 0 <= i < |name| ==> name[i] < 0x80
  }

  function Narrow(name: Units): (text: seq<Byte>)
    requires IsAscii(name)
    ensures |text| == |name|
  {
    seq<Byte>(|name|, i requires 0 <= i < |name| => name[i])
  }

  predicate IsAlphanumeric(c: Byte) {
    0x30 <= c <= 0x39 || 0x41 <= c <= 0x5A || 0x61 <= c <= 0x7A
  }

  function Upper(c: Byte): Byte {
    if 0x61 <= c <= 0x7A then c - 0x20 else c
  }

  function UpperAll(s: seq<Byte>): (t: seq<Byte>)
    ensures |t| == |s|
  {
    seq<Byte>(|s|, i requires 0 <= i < |s| => Upper(s[i]))
  }

  /** The text before the first dot. */
  function BeforeDot(text: seq<Byte>): seq<Byte> {
    if text == [] || text[0] == 0x2E then [] else [text[0]] + BeforeDot(text[1..])
  }

  /** The text after the last dot, if there is one. */
  function AfterDot(text: seq<Byte>): seq<Byte> {
    if 0x2E !in text || text[|text| - 1] == 0x2E then []
    else AfterDot(text[..|text| - 1]) + [text[|text| - 1]]
  }

  function Alphanumerics(s: seq<Byte>): seq<Byte> {
    if s == [] then []
    else if IsAlphanumeric(s[|s| - 1]) then Alphanumerics(s[..|s| - 1]) + [s[|s| - 1]]
    else Alphanumerics(s[..|s| - 1])
  }

  function Spaces(n: nat): (s: seq<Byte>)
    ensures |s| == n
  {
    seq<Byte>(n, _ => 0x20)
  }

  /** The first `n` bytes, filled up with spaces. */
  function Field(s: seq<Byte>, n: nat): (t: seq<Byte>)
    ensures |t| == n
  {
    if |s| >= n then s[..n] else s + Spaces(n - |s|)
  }

  function ShortName(text: seq<Byte>): (raw: seq<Byte>)
    ensures |raw| == 11
  {
    Field(UpperAll(BeforeDot(text)), 8) + Field(Alphanumerics(UpperAll(AfterDot(text))), 3)
  }

  /** Copies at most `n` bytes of `s` to `e[at..]`. */
  method PutField(e: array<Byte>, at: nat, n: nat, s: seq<Byte>)
    requires at + n <= e.Length && e[at..at + n] == Spaces(n)
    modifies e
    ensures e[at..at + n] == Field(s, n)
    ensures e[..at] == old(e[..at]) && e[at + n..] == old(e[at + n..])
  {
    ghost var was := e[at..at + n];
    assert forall j :: 0 <= j < n ==> was[j] == 0x20;
    var count := Min(|s|, n);
    for i := 0 to count
      invariant forall j :: at <= j < at + i ==> e[j] == s[j - at]
      invariant forall j :: 0 <= j < e.Length && !(at <= j < at + i) ==> e[j] == old(e[j])
    {
      e[at + i] := s[i];
    }
    FieldBytes(s, n);
    forall j | 0 <= j < n
      ensures e[at..at + n][j] == Field(s, n)[j]
    {
      var p := at + j;
      if j < count {
        assert e[p] == s[p - at];
      } else {
        assert e[p] == old(e[p]) == was[j];
      }
    }
  }

  lemma FieldBytes(s: seq<Byte>, n: nat)
    ensures forall j :: 0 <= j < n ==> Field(s, n)[j] == if j < |s| then s[j] else 0x20
  {
  }

  /** The short name of an entry without long-name slots. */
  method MakeShortName(text: seq<Byte>) returns (raw: seq<Byte>)
    ensures raw == ShortName(text)
  {
    var e := new Byte[11](_ => 0x20);
    assert e[0..8] == Spaces(8) && e[8..11] == Spaces(3);
    PutField(e, 0, 8, UpperAll(BeforeDot(text)));
    ghost var base := e[0..8];
    assert e[8..] == Spaces(3) && e[8..11] == e[8..];
    PutField(e, 8, 3, Alphanumerics(UpperAll(AfterDot(text))));
    assert e[..8] == base && e[..] == e[..8] + e[8..11];
    raw := e[..];
  }

  /** At most eight printable ASCII characters, then at most three letters or digits after one dot. */
  predicate EightDotThree(text: seq<Byte>) {
    var base, ext := BeforeDot(text), AfterDot(text);
    && 0 < |base| <= 8 && (forall i :: 0 <= i < |base| ==> 0x20 < base[i] < 0x80)
    && |ext| <= 3 && (forall i :: 0 <= i < |ext| ==> IsAlphanumeric(ext[i]))
    && text == Joined(base, ext)
  }

  lemma {:induction false} TrimmedField(s: seq<Byte>, n: nat)
    requires s != [] && s[|s| - 1] != 0x20
    ensures TrimSpaces(s + Spaces(n)) == s
    decreases n
  {
    var longer := s + Spaces(n);
    if n > 0 {
      TrimmedField(s, n - 1);
      assert longer[..|longer| - 1] == s + Spaces(n - 1);
    } else {
      assert longer == s;
    }
  }

  lemma {:induction false} CutField(s: seq<Byte>, n: nat)
    requires forall i :: 0 <= i < |s| ==> s[i] != 0x20
    ensures UntilSpace(s + Spaces(n)) == s
  {
    if s != [] {
      CutField(s[1..], n);
      assert (s + Spaces(n))[1..] == s[1..] + Spaces(n);
    }
  }

  lemma {:induction false} AllKept(s: seq<Byte>)
    requires forall i :: 0 <= i < |s| ==> IsAlphanumeric(s[i])
    ensures Alphanumerics(s) == s
  {
    if s != [] {
      AllKept(s[..|s| - 1]);
    }
  }

  lemma {:induction false} NoDotBefore(text: seq<Byte>)
    ensures forall i :: 0 <= i < |BeforeDot(text)| ==> BeforeDot(text)[i] != 0x2E
  {
    if text != [] && text[0] != 0x2E {
      NoDotBefore(text[1..]);
    }
  }

  /** The base ends at the first dot, and the extension starts behind the last one. */
  lemma {:induction false} BeforeFirstDot(base: seq<Byte>, rest: seq<Byte>)
    requires 0x2E !in base && (rest == [] || rest[0] == 0x2E)
    ensures BeforeDot(base + rest) == base
  {
    if base == [] {
      assert base + rest == rest;
    } else {
      assert (base + rest)[1..] == base[1..] + rest;
      BeforeFirstDot(base[1..], rest);
    }
  }

  lemma {:induction false} AfterLastDot(text: seq<Byte>, ext: seq<Byte>)
    requires 0x2E !in ext
    ensures AfterDot(text + [0x2E] + ext) == ext
  {
    var all := text + [0x2E] + ext;
    if ext == [] {
      assert all[|all| - 1] == 0x2E;
    } else {
      assert 0x2E == all[|text|] && all[|all| - 1] == ext[|ext| - 1];
      assert all[..|all| - 1] == text + [0x2E] + ext[..|ext| - 1];
      AfterLastDot(text, ext[..|ext| - 1]);
    }
  }

  /** The 8.3 names are exactly one to eight printable characters, alone or with a dot and up to three more. */
  lemma EightDotThreeIff(text: seq<Byte>)
    ensures EightDotThree(text) <==> exists base, ext :: IsParts(text, base, ext)
  {
    if EightDotThree(text) {
      var base, ext := BeforeDot(text), AfterDot(text);
      NoDotBefore(text);
      assert IsParts(text, base, ext);
    }
    if base, ext :| IsParts(text, base, ext) {
      PartsFound(text, base, ext);
    }
  }

  ghost predicate IsParts(text: seq<Byte>, base: seq<Byte>, ext: seq<Byte>) {
    && 1 <= |base| <= 8 && (forall i :: 0 <= i < |base| ==> ' ' as int < base[i] < 0x80 && base[i] != '.' as int)
    && |ext| <= 3 && (forall i :: 0 <= i < |ext| ==>
          || '0' as int <= ext[i] <= '9' as int || 'A' as int <= ext[i] <= 'Z' as int
          || 'a' as int <= ext[i] <= 'z' as int)
    && text == if ext == [] then base else base + ['.' as int] + ext
  }

  lemma PartsFound(text: seq<Byte>, base: seq<Byte>, ext: seq<Byte>)
    requires IsParts(text, base, ext)
    ensures BeforeDot(text) == base && AfterDot(text) == ext && EightDotThree(text)
  {
    hide BeforeDot, AfterDot;
    if ext == [] {
      BeforeFirstDot(base, []);
      assert base + [] == base;
      NoDotAtAll(base);
    } else {
      BeforeFirstDot(base, [0x2E] + ext);
      assert base + ([0x2E] + ext) == text;
      AfterLastDot(base, ext);
    }
    assert text == Joined(base, ext);
  }

  lemma NoDotAtAll(text: seq<Byte>)
    requires 0x2E !in text
    ensures AfterDot(text) == []
  {
  }

  /** What is shown in capitals: the same parts, each small letter by its capital. */
  lemma CapitalParts(text: seq<Byte>, base: seq<Byte>, ext: seq<Byte>)
    requires IsParts(text, base, ext)
    ensures |UpperAll(text)| == |text|
    ensures forall i :: 0 <= i < |text| ==>
      UpperAll(text)[i] == if 'a' as int <= text[i] <= 'z' as int then text[i] - 'a' as int + 'A' as int else text[i]
  {
  }

  lemma FieldFits(s: seq<Byte>, n: nat)
    requires |s| <= n
    ensures Field(s, n) == s + Spaces(n - |s|)
  {
  }

  /** The name without spaces: the two parts joined by a dot. */
  function Joined(base: seq<Byte>, ext: seq<Byte>): seq<Byte> {
    base + if ext == [] then [] else [0x2E] + ext
  }

  lemma UpperJoined(base: seq<Byte>, ext: seq<Byte>)
    ensures UpperAll(Joined(base, ext)) == Joined(UpperAll(base), UpperAll(ext))
  {
  }

  /** The short name of an 8.3 name: both parts in capitals, each filled up with spaces. */
  lemma ShortNameFields(text: seq<Byte>)
    requires EightDotThree(text)
    ensures var base, ext := UpperAll(BeforeDot(text)), UpperAll(AfterDot(text));
      && ShortName(text) == base + Spaces(8 - |base|) + (ext + Spaces(3 - |ext|))
      && UpperAll(text) == Joined(base, ext)
      && 0 < |base| && (forall i :: 0 <= i < |base| ==> 0x20 < base[i] < 0x80 && base[i] != 0x2E)
      && (forall i :: 0 <= i < |ext| ==> ext[i] != 0x20)
  {
    hide BeforeDot, AfterDot, Alphanumerics, Field, Spaces;
    var base, ext := UpperAll(BeforeDot(text)), UpperAll(AfterDot(text));
    NoDotBefore(text);
    AllKept(ext);
    UpperJoined(BeforeDot(text), AfterDot(text));
    FieldFits(base, 8);
    FieldFits(ext, 3);
  }

  /** Decoding two filled fields drops the filling. */
  lemma FieldsDecoded(base: seq<Byte>, ext: seq<Byte>, deleted: bool)
    requires 0 < |base| <= 8 && |ext| <= 3 && base[|base| - 1] != 0x20 && base[0] != 0x05
    requires forall i :: 0 <= i < |ext| ==> ext[i] != 0x20
    ensures DecodeShortName(base + Spaces(8 - |base|) + (ext + Spaces(3 - |ext|)), deleted)
      == (Widen(Joined(if deleted then [0x5F] + base[1..] else base, ext)), !deleted)
  {
    var left, right := base + Spaces(8 - |base|), ext + Spaces(3 - |ext|);
    assert (left + right)[..8] == left && (left + right)[8..] == right;
    TrimmedField(base, 8 - |base|);
    CutField(ext, 3 - |ext|);
    WidenJoined(if deleted then [0x5F] + base[1..] else base, ext);
    hide TrimSpaces, UntilSpace, Widen, Spaces;
  }

  lemma WidenJoined(base: seq<Byte>, ext: seq<Byte>)
    ensures Widen(Joined(base, ext)) == Widen(base) + if ext == [] then [] else [0x2E] + Widen(ext)
  {
  }

  /** Replacing the first byte of a filled and joined name replaces the first byte of its base. */
  lemma Marked(base: seq<Byte>, left: seq<Byte>, right: seq<Byte>, ext: seq<Byte>, mark: Byte)
    requires base != []
    ensures [mark] + (base + left + right)[1..] == ([mark] + base[1..]) + left + right
    ensures Joined(base, ext) != [] && Joined(base, ext)[0] == base[0]
    ensures [mark] + Joined(base, ext)[1..] == Joined([mark] + base[1..], ext)
  {
  }

  /** An 8.3 name is shown in capitals, and with an underscore for the first character its deletion destroys. */
  lemma ShortNameShown(text: seq<Byte>, deleted: bool)
    requires EightDotThree(text)
    ensures var raw, shown := ShortName(text), UpperAll(text);
      && raw[0] != 0 && raw[0] != DELETED && shown != [] && shown[0] != 0x2E
      && DecodeShortName([if deleted then DELETED else raw[0]] + raw[1..], deleted)
        == (Widen(if deleted then [0x5F] + shown[1..] else shown), !deleted)
  {
    hide BeforeDot, AfterDot, ShortName, UpperAll, DecodeShortName, EightDotThree, Widen, Spaces, Joined;
    var base, ext := UpperAll(BeforeDot(text)), UpperAll(AfterDot(text));
    ShortNameFields(text);
    var left, right := Spaces(8 - |base|), ext + Spaces(3 - |ext|);
    var mark := if deleted then DELETED else base[0];
    var first := [mark] + base[1..];
    Marked(base, left, right, ext, mark);
    Marked(base, left, right, ext, 0x5F);
    Marked(first, left, right, ext, 0x5F);
    FieldsDecoded(first, ext, deleted);
    assert first[1..] == base[1..];
    assert !deleted ==> first == base;
  }
}
