/**
 Registry keys. A device is registered under its 32-byte bus field, decoded lossily and without
 trailing NULs. These laws say which fields, and which names, share a key.
 */
module BusidKeys {
  import opened Bytes
  import opened Handshake
  import opened Types
  import opened Utf8
  import opened Wire

  // ---------------------------------------------------------------- fields

  /** The registry key is the field without its trailing NULs exactly when the field is UTF-8. */
  lemma KeyIsTrimmedField(field: BusidField)
    ensures BusidOf(field) == TrimNul(field) <==> IsUtf8(field)
  {
    TrimSplits(field);
    TrimSplits(Lossy(field));
    var t := TrimNul(field);
    if IsUtf8(field) {
      LossyKeepsUtf8(field);
    } else if BusidOf(field) == t {
      LossyIsUtf8(field);
      Utf8BeforeZeros(t, |Lossy(field)| - |t|);
      ZerosAreUtf8(32 - |t|);
      Utf8Append(t, Zeros(32 - |t|));
    }
  }

  /** Devices whose bus fields are UTF-8 share a key only if they share the field. */
  lemma KeysAreInjective(p: OpRepImport, q: OpRepImport)
    requires IsUtf8(p.busid) && IsUtf8(q.busid)
    ensures DeviceOf(p).busid == DeviceOf(q).busid <==> p.busid == q.busid
  {
    KeyIsTrimmedField(p.busid);
    KeyIsTrimmedField(q.busid);
    TrimSplits(p.busid);
    TrimSplits(q.busid);
  }

  /** Outside UTF-8 that is false: two fields that differ in an invalid byte share one key. */
  lemma InvalidBytesCollide()
    ensures var f: BusidField := [0xFE] + Zeros(31);
            var g: BusidField := [0xFF] + Zeros(31);
            f != g && BusidOf(f) == BusidOf(g)
  {
    var f: BusidField := [0xFE] + Zeros(31);
    var g: BusidField := [0xFF] + Zeros(31);
    assert f[1..] == Zeros(31) == g[1..];
    assert f[0] != g[0];
  }

  // ---------------------------------------------------------------- which keys are shared

  /** The field with one piece replaced by a single byte that no character contains. */
  function Twin(f: BusidField, a: seq<byte>, p: seq<byte>, c: seq<byte>): BusidField
    requires f == a + p + c && 1 <= |p|
  {
    a + [if p[0] == 0xFF then 0xFE else 0xFF] + (c + Zeros(|p| - 1))
  }

  /** It is another field with the same key, if decoding replaces that piece too. */
  lemma TwinSharesKey(f: BusidField, a: seq<byte>, p: seq<byte>, c: seq<byte>)
    requires Replaced(f, a, p, c)
    ensures Twin(f, a, p, c) != f
    ensures BusidOf(Twin(f, a, p, c)) == BusidOf(f)
  {
    hide IsUtf8, TrimNul, Lossy;
    var g, k := Twin(f, a, p, c), |p| - 1;
    assert g[|a|] != f[|a|];
    var x, tail := g[|a|], c + Zeros(k);
    assert g == a + ([x] + tail);
    LossyAfter(a, [x] + tail);
    LossyBadByte(x, tail);
    LossyPadded(c, k);
    assert a + (REPLACEMENT + (Lossy(c) + Zeros(k))) == (a + REPLACEMENT + Lossy(c)) + Zeros(k);
    TrimOfPadded(Lossy(f), k);
  }

  lemma AfterReplacement(c: seq<byte>)
    requires IsUtf8(REPLACEMENT + c)
    ensures IsUtf8(c)
  {
    assert (REPLACEMENT + c)[3..] == c;
  }

  /** A UTF-8 field with a replacement character in it splits there. */
  lemma ReplacementSplits(f: BusidField, i: nat)
    requires IsUtf8(f) && ReplacementAt(f, i)
    ensures Replaced(f, f[..i], REPLACEMENT, f[i + 3..])
  {
    hide IsUtf8, Lossy;
    var a, c := f[..i], f[i + 3..];
    assert f == a + (REPLACEMENT + c);
    Utf8Split(a, REPLACEMENT + c);
    AfterReplacement(c);
    LossyKeepsUtf8(f);
    LossyKeepsUtf8(c);
  }

  /** And a UTF-8 field that holds a replacement character shares its key with an invalid one. */
  lemma ReplacementCollides()
    ensures var f: BusidField := REPLACEMENT + Zeros(29);
            var g: BusidField := [0xFF] + Zeros(31);
            IsUtf8(f) && f != g && BusidOf(f) == BusidOf(g)
  {
    hide IsUtf8, Lossy, TrimNul, BusidOf;
    var f: BusidField := REPLACEMENT + Zeros(29);
    var g: BusidField := [0xFF] + Zeros(31);
    ReplacementIsUtf8();
    ZerosAreUtf8(29);
    Utf8Append(REPLACEMENT, Zeros(29));
    ReplacementSplits(f, 0);
    assert f[..0] == [] && f[3..] == Zeros(29);
    TwinSharesKey(f, [], REPLACEMENT, Zeros(29));
    assert Zeros(29) + Zeros(2) == Zeros(31);
    assert Twin(f, [], REPLACEMENT, Zeros(29)) == g;
  }

  /** A field that is not UTF-8 always has a replacement character in its key. */
  lemma InvalidKeyHasReplacement(g: BusidField)
    requires !IsUtf8(g)
    ensures HasReplacement(BusidOf(g))
  {
    hide IsUtf8, Lossy, TrimNul;
    var a, p, c := FirstIllFormed(g);
    var s, t := Lossy(g), BusidOf(g);
    TrimSplits(s);
    assert ReplacementAt(s, |a|);
    assert s[|a| + 2] == 0xBD;
    assert |a| + 2 < |t|;
    assert ReplacementAt(t, |a|);
  }

  lemma SharedWithInvalid(f: BusidField, g: BusidField)
    requires IsUtf8(f) && !IsUtf8(g) && BusidOf(g) == BusidOf(f)
    ensures HasReplacement(f)
  {
    hide IsUtf8, Lossy, TrimNul, BusidOf;
    KeyIsTrimmedField(f);
    TrimSplits(f);
    InvalidKeyHasReplacement(g);
    var i: nat :| ReplacementAt(BusidOf(g), i);
    assert ReplacementAt(f, i);
  }

  lemma OnlyField(f: BusidField, g: BusidField)
    requires IsUtf8(f) && !HasReplacement(f) && BusidOf(g) == BusidOf(f)
    ensures g == f
  {
    hide IsUtf8, Lossy, TrimNul, BusidOf, HasReplacement;
    assert IsUtf8(g) by {
      if !IsUtf8(g) {
        SharedWithInvalid(f, g);
      }
    }
    KeyIsTrimmedField(f);
    KeyIsTrimmedField(g);
    TrimSplits(f);
    TrimSplits(g);
  }

  lemma OtherField(f: BusidField) returns (g: BusidField)
    requires !IsUtf8(f) || HasReplacement(f)
    ensures g != f && BusidOf(g) == BusidOf(f)
  {
    hide IsUtf8, Lossy, TrimNul, BusidOf;
    var a, p, c;
    if IsUtf8(f) {
      var i: nat :| ReplacementAt(f, i);
      ReplacementSplits(f, i);
      a, p, c := f[..i], REPLACEMENT, f[i + 3..];
    } else {
      a, p, c := FirstIllFormed(f);
    }
    TwinSharesKey(f, a, p, c);
    g := Twin(f, a, p, c);
  }

  /**
   No other field has this field's key exactly when the field is UTF-8 and holds no replacement
   character.
   */
  lemma KeyIsUnshared(f: BusidField)
    ensures (forall g: BusidField :: BusidOf(g) == BusidOf(f) ==> g == f) <==> IsUtf8(f) && !HasReplacement(f)
  {
    if IsUtf8(f) && !HasReplacement(f) {
      forall g: BusidField | BusidOf(g) == BusidOf(f)
        ensures g == f
      {
        OnlyField(f, g);
      }
    } else {
      var g := OtherField(f);
    }
  }

  // ---------------------------------------------------------------- names

  lemma PaddedName(name: Str)
    ensures TrimNul(PadBusid(name)) == TrimNul(Cut(name)) && |TrimNul(Cut(name))| <= 32
    ensures PadBusid(name) == TrimNul(Cut(name)) + Zeros(32 - |TrimNul(Cut(name))|)
  {
    hide TrimNul;
    TrimOfPadded(Cut(name), 32 - |Cut(name)|);
    assert PadBusid(name) == Cut(name) + Zeros(32 - |Cut(name)|);
    TrimSplits(PadBusid(name));
  }

  /** Two names are asked for alike exactly when they agree up to 32 bytes and trailing NULs. */
  lemma FieldOfName(m: Str, n: Str)
    ensures PadBusid(m) == PadBusid(n) <==> TrimNul(Cut(m)) == TrimNul(Cut(n))
  {
    hide TrimNul, Cut, PadBusid;
    PaddedName(m);
    PaddedName(n);
  }

  /** Names whose first 32 bytes are UTF-8 lead to one key exactly when they are asked for alike. */
  lemma KeyOfName(m: Str, n: Str)
    requires IsUtf8(Cut(m)) && IsUtf8(Cut(n))
    ensures BusidOf(PadBusid(m)) == BusidOf(PadBusid(n)) <==> TrimNul(Cut(m)) == TrimNul(Cut(n))
  {
    hide IsUtf8, TrimNul, BusidOf, Cut, PadBusid;
    PaddedUtf8(m);
    PaddedUtf8(n);
    KeyIsTrimmedField(PadBusid(m));
    KeyIsTrimmedField(PadBusid(n));
    PaddedName(m);
    PaddedName(n);
  }

  lemma {:induction false} AsciiIsUtf8(s: seq<byte>)
    requires forall i | 0 <= i < |s| :: s[i] < 0x80
    ensures IsUtf8(s)
    decreases |s|
  {
    if s != [] {
      AsciiIsUtf8(s[1..]);
    }
  }

  /** Thirty-two letters a and one more letter: the longer names are cut to one and the same. */
  lemma LongNamesCollide()
    ensures var m, n := seq(32, _ => 97) + [98], seq(32, _ => 97) + [99];
            && IsUtf8(m) && IsUtf8(n) && m != n
            && ImportRequest(m) == ImportRequest(n)
  {
    var a: seq<byte> := seq(32, _ => 97);
    var m, n := a + [98], a + [99];
    assert m[32] != n[32];
    AsciiIsUtf8(m);
    AsciiIsUtf8(n);
    assert m[..32] == a == n[..32];
  }

  /** Among the names that survive the handshake, equal keys mean equal names. */
  lemma SurvivingNamesHaveOwnKeys(m: Str, n: Str)
    requires IsUtf8(m) && |m| <= 32 && !EndsInNul(m)
    requires IsUtf8(n) && |n| <= 32 && !EndsInNul(n)
    ensures BusidOf(PadBusid(m)) == BusidOf(PadBusid(n)) <==> m == n
  {
    KeyOfName(m, n);
    TrimSplits(m);
    TrimSplits(n);
  }
}
