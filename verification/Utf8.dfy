/**
 UTF-8 byte strings, as far as bus identifiers need them: validity, lossy decoding and trimming
 of trailing NULs. Well-formed sequences are those of table 3-7 of the Unicode standard, which is
 what `core::str::from_utf8` accepts.
 */
module Utf8 {
  import opened Bytes

  predicate IsContinuation(b: byte) {
    0x80 <= b <= 0xBF
  }

  /** May `b` follow the lead byte `lead` directly? */
  predicate IsSecond(lead: byte, b: byte) {
    if lead == 0xE0 then 0xA0 <= b <= 0xBF
    else if lead == 0xED then 0x80 <= b <= 0x9F
    else if lead == 0xF0 then 0x90 <= b <= 0xBF
    else if lead == 0xF4 then 0x80 <= b <= 0x8F
    else IsContinuation(b)
  }

  /** The length of a character with this lead byte; 0 if no character starts with it. */
  function CharLength(lead: byte): (n: nat)
    ensures n <= 4
  {
    if lead <= 0x7F then 1
    else if 0xC2 <= lead <= 0xDF then 2
    else if 0xE0 <= lead <= 0xEF then 3
    else if 0xF0 <= lead <= 0xF4 then 4
    else 0
  }

  /** How many bytes at the front of `s` fit one character, up to the first that does not. */
  function Fitting(s: seq<byte>): (n: nat)
    requires s != []
    ensures n <= |s| && n <= CharLength(s[0])
  {
    var len := CharLength(s[0]);
    if len < 2 || |s| < 2 || !IsSecond(s[0], s[1]) then (if len == 0 then 0 else 1)
    else if len < 3 || |s| < 3 || !IsContinuation(s[2]) then 2
    else if len < 4 || |s| < 4 || !IsContinuation(s[3]) then 3
    else 4
  }

  /** `s` starts with a whole character. */
  predicate StartsWithChar(s: seq<byte>) {
    s != [] && CharLength(s[0]) > 0 && Fitting(s) == CharLength(s[0])
  }

  predicate IsUtf8(s: seq<byte>)
    decreases |s|
  {
    s == [] || (StartsWithChar(s) && IsUtf8(s[CharLength(s[0])..]))
  }

  const REPLACEMENT: seq<byte> := [0xEF, 0xBF, 0xBD]

  /** `String::from_utf8_lossy`: each maximal ill-formed piece becomes one replacement character. */
  function Lossy(s: seq<byte>): seq<byte>
    decreases |s|
  {
    if s == [] then []
    else if StartsWithChar(s) then s[..CharLength(s[0])] + Lossy(s[CharLength(s[0])..])
    else
      var skip := if Fitting(s) == 0 then 1 else Fitting(s);
      REPLACEMENT + Lossy(s[skip..])
  }

  /** `trim_end_matches('\0')`; in UTF-8 only the character NUL contains a zero byte. */
  function TrimNul(s: seq<byte>): seq<byte>
    decreases |s|
  {
    if s != [] && s[|s| - 1] == 0 then TrimNul(s[..|s| - 1]) else s
  }

  function Zeros(n: nat): seq<byte> {
    seq(n, _ => 0)
  }

  // ---------------------------------------------------------------- validity

  lemma CharThen(c: seq<byte>, s: seq<byte>)
    requires StartsWithChar(c) && |c| == CharLength(c[0])
    ensures StartsWithChar(c + s) && CharLength((c + s)[0]) == |c|
    ensures (c + s)[|c|..] == s
  {
  }

  lemma {:induction false} Utf8Append(s: seq<byte>, t: seq<byte>)
    requires IsUtf8(s)
    ensures IsUtf8(s + t) <==> IsUtf8(t)
    decreases |s|
  {
    if s == [] {
      assert s + t == t;
    } else {
      var n := CharLength(s[0]);
      assert s + t == s[..n] + (s[n..] + t);
      CharThen(s[..n], s[n..] + t);
      Utf8Append(s[n..], t);
    }
  }

  lemma {:induction false} ZerosAreUtf8(n: nat)
    ensures IsUtf8(Zeros(n))
  {
    if n > 0 {
      assert Zeros(n)[1..] == Zeros(n - 1);
      ZerosAreUtf8(n - 1);
    }
  }

  /** Lossy decoding always gives UTF-8, and changes exactly what was not UTF-8 before. */
  lemma {:induction false} LossyIsUtf8(s: seq<byte>)
    ensures IsUtf8(Lossy(s))
    decreases |s|
  {
    if s != [] {
      if StartsWithChar(s) {
        var n := CharLength(s[0]);
        LossyIsUtf8(s[n..]);
        CharThen(s[..n], Lossy(s[n..]));
      } else {
        var skip := if Fitting(s) == 0 then 1 else Fitting(s);
        LossyIsUtf8(s[skip..]);
        CharThen(REPLACEMENT, Lossy(s[skip..]));
      }
    }
  }

  lemma {:induction false} LossyKeepsUtf8(s: seq<byte>)
    requires IsUtf8(s)
    ensures Lossy(s) == s
    decreases |s|
  {
    if s != [] {
      LossyKeepsUtf8(s[CharLength(s[0])..]);
    }
  }

  lemma {:induction false} LossyFixedPoints(s: seq<byte>)
    ensures Lossy(s) == s <==> IsUtf8(s)
  {
    LossyIsUtf8(s);
    if IsUtf8(s) {
      LossyKeepsUtf8(s);
    }
  }

  // ---------------------------------------------------------------- ill-formed pieces

  predicate ReplacementAt(s: seq<byte>, i: nat) {
    i + 3 <= |s| && s[i] == 0xEF && s[i + 1] == 0xBF && s[i + 2] == 0xBD
  }

  /** The replacement character occurs in `s`. */
  ghost predicate HasReplacement(s: seq<byte>) {
    exists i: nat :: ReplacementAt(s, i)
  }

  lemma LossyChar(c: seq<byte>, s: seq<byte>)
    requires StartsWithChar(c) && |c| == CharLength(c[0])
    ensures Lossy(c + s) == c + Lossy(s)
  {
    CharThen(c, s);
  }

  lemma FirstChar(s: seq<byte>)
    requires StartsWithChar(s)
    ensures var n := CharLength(s[0]);
            0 < n <= |s| && StartsWithChar(s[..n]) && CharLength(s[..n][0]) == n
  {
  }

  /** A well-formed beginning is kept as it is. */
  lemma {:induction false} LossyAfter(a: seq<byte>, s: seq<byte>)
    requires IsUtf8(a)
    ensures Lossy(a + s) == a + Lossy(s)
    decreases |a|
  {
    hide Lossy, Fitting, CharLength;
    if a == [] {
      assert a + s == s;
    } else {
      var n := CharLength(a[0]);
      assert a + s == a[..n] + (a[n..] + s);
      FirstChar(a);
      LossyChar(a[..n], a[n..] + s);
      LossyAfter(a[n..], s);
    }
  }

  lemma ReplacementIsUtf8()
    ensures IsUtf8(REPLACEMENT)
  {
    assert REPLACEMENT[3..] == [];
  }

  /** A string splits before any byte that is not a continuation. */
  lemma {:induction false} Utf8Split(a: seq<byte>, b: seq<byte>)
    requires IsUtf8(a + b) && b != [] && !IsContinuation(b[0])
    ensures IsUtf8(a) && IsUtf8(b)
    decreases |a|
  {
    if a == [] {
      assert a + b == b;
    } else {
      var s, n := a + b, CharLength(a[0]);
      assert s[|a|] == b[0];
      assert n <= |a|;
      assert s[n..] == a[n..] + b;
      Utf8Split(a[n..], b);
    }
  }

  /** Lossy decoding replaces a piece of one to three bytes after a well-formed beginning. */
  predicate Replaced(s: seq<byte>, a: seq<byte>, p: seq<byte>, c: seq<byte>) {
    s == a + p + c && IsUtf8(a) && 1 <= |p| <= 3 && Lossy(s) == a + REPLACEMENT + Lossy(c)
  }

  lemma IllFormedPiece(s: seq<byte>)
    requires s != [] && !StartsWithChar(s)
    ensures Fitting(s) <= 3
  {
  }

  lemma CharBeforeReplaced(ch: seq<byte>, s: seq<byte>, a: seq<byte>, p: seq<byte>, c: seq<byte>)
    requires StartsWithChar(ch) && |ch| == CharLength(ch[0]) && Replaced(s, a, p, c)
    ensures Replaced(ch + s, ch + a, p, c)
  {
    hide Fitting, CharLength, Lossy;
    LossyChar(ch, s);
    CharThen(ch, a);
    assert ch + s == (ch + a) + p + c;
    assert ch + (a + REPLACEMENT + Lossy(c)) == (ch + a) + REPLACEMENT + Lossy(c);
  }

  /** The first ill-formed piece of a string that is not UTF-8. */
  lemma {:induction false} FirstIllFormed(s: seq<byte>) returns (a: seq<byte>, p: seq<byte>, c: seq<byte>)
    requires !IsUtf8(s)
    ensures Replaced(s, a, p, c)
    decreases |s|
  {
    hide Fitting, CharLength;
    if StartsWithChar(s) {
      var n := CharLength(s[0]);
      FirstChar(s);
      a, p, c := FirstIllFormed(s[n..]);
      CharBeforeReplaced(s[..n], s[n..], a, p, c);
      assert s == s[..n] + s[n..];
      a := s[..n] + a;
    } else {
      IllFormedPiece(s);
      var skip := if Fitting(s) == 0 then 1 else Fitting(s);
      a, p, c := [], s[..skip], s[skip..];
      assert s == a + p + c;
      assert Lossy(s) == a + REPLACEMENT + Lossy(c);
    }
  }

  /** No character goes on with a zero byte. */
  lemma FittingPadded(c: seq<byte>, n: nat)
    requires c != []
    ensures Fitting(c + Zeros(n)) == Fitting(c) && StartsWithChar(c + Zeros(n)) == StartsWithChar(c)
  {
    var s := c + Zeros(n);
    assert forall i | |c| <= i < |s| :: s[i] == 0;
  }

  /** How many bytes lossy decoding consumes at once. */
  function PieceLength(s: seq<byte>): (n: nat)
    requires s != []
    ensures 0 < n <= |s|
  {
    if StartsWithChar(s) then CharLength(s[0]) else if Fitting(s) == 0 then 1 else Fitting(s)
  }

  lemma LossyPiece(s: seq<byte>)
    requires s != []
    ensures var n := PieceLength(s);
            Lossy(s) == (if StartsWithChar(s) then s[..n] else REPLACEMENT) + Lossy(s[n..])
  {
    hide Fitting, CharLength;
  }

  lemma LossyZeros(n: nat)
    ensures Lossy(Zeros(n)) == Zeros(n) && Lossy([]) == []
  {
    ZerosAreUtf8(n);
    LossyKeepsUtf8(Zeros(n));
  }

  /** So zeros after a string are decoded on their own. */
  lemma {:induction false} LossyPadded(c: seq<byte>, n: nat)
    ensures Lossy(c + Zeros(n)) == Lossy(c) + Zeros(n)
    decreases |c|
  {
    hide Fitting, CharLength, StartsWithChar, IsUtf8, Lossy;
    var s := c + Zeros(n);
    if c == [] {
      assert s == Zeros(n) == [] + Zeros(n);
      LossyZeros(n);
    } else {
      FittingPadded(c, n);
      LossyPiece(c);
      LossyPiece(s);
      var k := PieceLength(c);
      assert s[k..] == c[k..] + Zeros(n) && s[..k] == c[..k];
      LossyPadded(c[k..], n);
      var piece := if StartsWithChar(c) then c[..k] else REPLACEMENT;
      assert piece + (Lossy(c[k..]) + Zeros(n)) == (piece + Lossy(c[k..])) + Zeros(n);
    }
  }

  lemma LossyBadByte(x: byte, s: seq<byte>)
    requires CharLength(x) == 0
    ensures Lossy([x] + s) == REPLACEMENT + Lossy(s)
  {
    assert ([x] + s)[1..] == s;
  }

  // ---------------------------------------------------------------- scalar values

  /** A Unicode scalar value: a code point that is not a surrogate. */
  predicate IsScalar(v: int) {
    0 <= v < 0xD800 || 0xE000 <= v <= 0x10FFFF
  }

  /** Its UTF-8 encoding, by the bit distribution of table 3-6 of the Unicode standard. */
  function EncodeScalar(v: int): seq<byte>
    requires IsScalar(v)
  {
    if v < 0x80 then [v]
    else if v < 0x800 then [0xC0 + v / 0x40, 0x80 + v % 0x40]
    else if v < 0x1_0000 then [0xE0 + v / 0x1000, 0x80 + v / 0x40 % 0x40, 0x80 + v % 0x40]
    else [0xF0 + v / 0x4_0000, 0x80 + v / 0x1000 % 0x40, 0x80 + v / 0x40 % 0x40, 0x80 + v % 0x40]
  }

  predicate IsChar(c: seq<byte>) {
    StartsWithChar(c) && |c| == CharLength(c[0])
  }

  lemma CharBytes(c: seq<byte>)
    requires IsChar(c)
    ensures 1 <= |c| <= 4
    ensures |c| >= 2 ==> IsSecond(c[0], c[1])
    ensures forall i | 2 <= i < |c| :: IsContinuation(c[i])
  {
  }

  /** The low six bits of a continuation byte. */
  function Low(b: byte): int {
    b as int - 0x80
  }

  /** The number that a character's bytes denote. */
  function ScalarOf(c: seq<byte>): int {
    if |c| == 1 then c[0]
    else if |c| == 2 then (c[0] as int - 0xC0) * 0x40 + Low(c[1])
    else if |c| == 3 then ((c[0] as int - 0xE0) * 0x40 + Low(c[1])) * 0x40 + Low(c[2])
    else if |c| == 4 then (((c[0] as int - 0xF0) * 0x40 + Low(c[1])) * 0x40 + Low(c[2])) * 0x40 + Low(c[3])
    else 0
  }

  lemma Digit(a: int, b: int)
    requires 0 <= b < 0x40
    ensures (a * 0x40 + b) / 0x40 == a && (a * 0x40 + b) % 0x40 == b
  {
  }

  lemma ShortCharEncodesScalar(c: seq<byte>)
    requires IsChar(c) && |c| <= 3
    ensures IsScalar(ScalarOf(c)) && EncodeScalar(ScalarOf(c)) == c
  {
    hide Fitting;
    var v := ScalarOf(c);
    CharBytes(c);
    if |c| == 2 {
      Digit(c[0] as int - 0xC0, Low(c[1]));
    } else if |c| == 3 {
      var high := (c[0] as int - 0xE0) * 0x40 + Low(c[1]);
      Digit(c[0] as int - 0xE0, Low(c[1]));
      Digit(high, Low(c[2]));
      assert v / 0x1000 == high / 0x40;
    }
  }

  lemma LongCharEncodesScalar(c: seq<byte>)
    requires IsChar(c) && |c| == 4
    ensures IsScalar(ScalarOf(c)) && EncodeScalar(ScalarOf(c)) == c
  {
    hide Fitting;
    CharBytes(c);
    var v := ScalarOf(c);
    var top := (c[0] as int - 0xF0) * 0x40 + Low(c[1]);
    var high := top * 0x40 + Low(c[2]);
    Digit(c[0] as int - 0xF0, Low(c[1]));
    Digit(top, Low(c[2]));
    Digit(high, Low(c[3]));
    assert v / 0x1000 == high / 0x40 && v / 0x4_0000 == top / 0x40;
  }

  lemma CharEncodesScalar(c: seq<byte>)
    requires IsChar(c)
    ensures IsScalar(ScalarOf(c)) && EncodeScalar(ScalarOf(c)) == c
  {
    if |c| <= 3 {
      ShortCharEncodesScalar(c);
    } else {
      LongCharEncodesScalar(c);
    }
  }

  lemma ScalarEncodesToChar(v: int)
    requires IsScalar(v)
    ensures IsChar(EncodeScalar(v))
  {
  }

  predicate AllScalars(vs: seq<int>) {
    forall i | 0 <= i < |vs| :: IsScalar(vs[i])
  }

  function EncodeScalars(vs: seq<int>): seq<byte>
    requires AllScalars(vs)
  {
    if vs == [] then [] else EncodeScalar(vs[0]) + EncodeScalars(vs[1..])
  }

  lemma {:induction false} EncodedIsUtf8(vs: seq<int>)
    requires AllScalars(vs)
    ensures IsUtf8(EncodeScalars(vs))
  {
    hide Fitting, CharLength, EncodeScalar;
    if vs != [] {
      EncodedIsUtf8(vs[1..]);
      ScalarEncodesToChar(vs[0]);
      CharThen(EncodeScalar(vs[0]), EncodeScalars(vs[1..]));
    }
  }

  lemma {:induction false} Utf8IsEncoded(s: seq<byte>) returns (vs: seq<int>)
    requires IsUtf8(s)
    ensures AllScalars(vs) && EncodeScalars(vs) == s
    decreases |s|
  {
    hide Fitting, CharLength, EncodeScalar;
    if s == [] {
      vs := [];
    } else {
      var n := CharLength(s[0]);
      FirstChar(s);
      CharEncodesScalar(s[..n]);
      var rest := Utf8IsEncoded(s[n..]);
      vs := [ScalarOf(s[..n])] + rest;
      assert vs[1..] == rest;
      assert s == s[..n] + s[n..];
    }
  }

  /** The byte strings accepted by the table of lead and second bytes are the encodings of scalar values. */
  lemma Utf8Exactly(s: seq<byte>)
    ensures IsUtf8(s) <==> exists vs :: AllScalars(vs) && EncodeScalars(vs) == s
  {
    if IsUtf8(s) {
      var vs := Utf8IsEncoded(s);
    }
    forall vs | AllScalars(vs) && EncodeScalars(vs) == s
      ensures IsUtf8(s)
    {
      EncodedIsUtf8(vs);
    }
  }

  /** A piece that was begun correctly can be completed to a character. */
  lemma Completion(s: seq<byte>) returns (c: seq<byte>)
    requires s != [] && Fitting(s) > 0
    ensures IsChar(c) && s[..Fitting(s)] <= c
  {
    var n, len := Fitting(s), CharLength(s[0]);
    var lead := s[0];
    var second := if n > 1 then s[1] else if lead == 0xE0 then 0xA0 else if lead == 0xF0 then 0x90 else 0x80;
    var third := if n > 2 then s[2] else 0x80;
    var fourth := if n > 3 then s[3] else 0x80;
    c := [lead, second, third, fourth][..len];
  }

  lemma PrefixFits(s: seq<byte>, m: nat, c: seq<byte>)
    requires 0 < m <= |s| && IsChar(c) && s[..m] <= c
    ensures m <= Fitting(s)
  {
    assert forall i | 0 <= i < m :: s[i] == s[..m][i] == c[i];
  }

  /**
   Each replacement character stands for a maximal ill-formed piece in the sense of the Unicode
   standard, section 3.9: the longest beginning of the string that also begins some character's
   encoding, or a single byte if there is none.
   */
  lemma ReplacedPieceIsMaximal(s: seq<byte>)
    requires s != [] && !StartsWithChar(s)
    ensures var n := PieceLength(s);
            && Lossy(s) == REPLACEMENT + Lossy(s[n..])
            && (n == 1 || exists v :: IsScalar(v) && s[..n] <= EncodeScalar(v))
            && forall m, v | n < m <= |s| && IsScalar(v) :: !(s[..m] <= EncodeScalar(v))
  {
    hide Fitting, CharLength, EncodeScalar;
    var n := PieceLength(s);
    LossyPiece(s);
    if n > 1 {
      var c := Completion(s);
      CharEncodesScalar(c);
    }
    forall m, v | n < m <= |s| && IsScalar(v)
      ensures !(s[..m] <= EncodeScalar(v))
    {
      ScalarEncodesToChar(v);
      if s[..m] <= EncodeScalar(v) {
        PrefixFits(s, m, EncodeScalar(v));
      }
    }
  }

  // ---------------------------------------------------------------- trimming

  predicate EndsInNul(s: seq<byte>) {
    s != [] && s[|s| - 1] == 0
  }

  /** Trimming removes the longest run of NULs at the end. */
  lemma {:induction false} TrimSplits(s: seq<byte>)
    ensures var t := TrimNul(s);
            !EndsInNul(t) && |t| <= |s| && s == t + Zeros(|s| - |t|)
    decreases |s|
  {
    if EndsInNul(s) {
      var front := s[..|s| - 1];
      TrimSplits(front);
      var k := |front| - |TrimNul(front)|;
      assert Zeros(k + 1) == Zeros(k) + [0];
      assert s == front + [0];
    }
  }

  lemma {:induction false} TrimOfPadded(t: seq<byte>, n: nat)
    ensures TrimNul(t + Zeros(n)) == TrimNul(t)
  {
    var s := t + Zeros(n);
    if n == 0 {
      assert s == t;
    } else {
      assert s[..|s| - 1] == t + Zeros(n - 1);
      TrimOfPadded(t, n - 1);
    }
  }
}
