/** UTF-8: how Node encodes arguments, and the fatal decoder that reads the helper's output. */
module Unicode {
  import opened Bytes
  import opened Wrappers

  /** A JavaScript string by code points; a lone surrogate is a code point of its own. */
  type CodePoint = p: int | 0 <= p < 0x110000

  /** UTF-8, with the replacement character for a lone surrogate, as Node encodes arguments. */
  function Utf8(p: CodePoint): (r: seq<byte>)
    ensures |r| >= 1
    ensures p < 0x80 ==> r == [p]
    ensures p >= 0x80 ==> forall i :: 0 <= i < |r| ==> r[i] >= 0x80
  {
    if p < 0x80 then [p]
    else if p < 0x800 then [0xc0 + p / 64, 0x80 + p % 64]
    else if 0xd800 <= p < 0xe000 then [0xef, 0xbf, 0xbd]
    else if p < 0x10000 then [0xe0 + p / 4096, 0x80 + p / 64 % 64, 0x80 + p % 64]
    else [0xf0 + p / 262144, 0x80 + p / 4096 % 64, 0x80 + p / 64 % 64, 0x80 + p % 64]
  }

  function Encode(path: seq<CodePoint>): (r: seq<byte>)
    ensures |r| >= |path|
  {
    if path == [] then [] else Utf8(path[0]) + Encode(path[1..])
  }

  lemma {:induction false} EncodeAppend(a: seq<CodePoint>, b: seq<CodePoint>)
    ensures Encode(a + b) == Encode(a) + Encode(b)
  {
    hide Utf8;
    if a == [] {
      assert a + b == b;
    } else {
      assert (a + b)[1..] == a[1..] + b;
      EncodeAppend(a[1..], b);
    }
  }

  lemma EncodeStep(c: seq<CodePoint>)
    requires c != []
    ensures Encode(c) == Utf8(c[0]) + Encode(c[1..])
  {
  }

  // ---- Decoding.

  predicate Surrogate(p: CodePoint) { 0xd800 <= p < 0xe000 }

  predicate Scalars(text: seq<CodePoint>) { forall i :: 0 <= i < |text| ==> !Surrogate(text[i]) }

  predicate Trail(b: byte) { 0x80 <= b < 0xc0 }

  function Two(x: int, y: int): int { (x - 0xc0) * 64 + (y - 0x80) }

  function Three(x: int, y: int, z: int): int { (x - 0xe0) * 4096 + (y - 0x80) * 64 + (z - 0x80) }

  function Four(x: int, y: int, z: int, u: int): int {
    (x - 0xf0) * 262144 + (y - 0x80) * 4096 + (z - 0x80) * 64 + (u - 0x80)
  }

  /** The code point at the front of the octets, unless they are malformed there. */
  function DecodeFirst(b: seq<byte>): (r: Option<CodePoint>)
    requires b != []
  {
    if b[0] < 0x80 then Some(b[0])
    else if 0xc2 <= b[0] < 0xe0 && |b| >= 2 && Trail(b[1]) then Some(Two(b[0], b[1]))
    else if 0xe0 <= b[0] < 0xf0 && |b| >= 3 && Trail(b[1]) && Trail(b[2]) then
      var p := Three(b[0], b[1], b[2]);
      if p >= 0x800 && !Surrogate(p) then Some(p) else None
    else if 0xf0 <= b[0] < 0xf5 && |b| >= 4 && Trail(b[1]) && Trail(b[2]) && Trail(b[3]) then
      var p := Four(b[0], b[1], b[2], b[3]);
      if 0x10000 <= p < 0x110000 then Some(p) else None
    else None
  }

  lemma ThreeParts(x: int, y: int, z: int)
    requires 0xe0 <= x < 0xf0 && 0x80 <= y < 0xc0 && 0x80 <= z < 0xc0
    ensures var p := Three(x, y, z); p < 0x10000 && p / 4096 == x - 0xe0 && p / 64 % 64 == y - 0x80 && p % 64 == z - 0x80
  {
    var p := Three(x, y, z);
    assert p / 64 == (x - 0xe0) * 64 + (y - 0x80);
  }

  lemma FourParts(x: int, y: int, z: int, u: int)
    requires 0xf0 <= x < 0xf5 && 0x80 <= y < 0xc0 && 0x80 <= z < 0xc0 && 0x80 <= u < 0xc0
    ensures var p := Four(x, y, z, u);
      p / 262144 == x - 0xf0 && p / 4096 % 64 == y - 0x80 && p / 64 % 64 == z - 0x80 && p % 64 == u - 0x80
  {
    var p := Four(x, y, z, u);
    assert p / 64 == (x - 0xf0) * 4096 + (y - 0x80) * 64 + (z - 0x80);
    assert p / 4096 == (x - 0xf0) * 64 + (y - 0x80);
  }

  lemma FirstIsEncoded(b: seq<byte>)
    requires b != [] && DecodeFirst(b).Some?
    ensures !Surrogate(DecodeFirst(b).value) && Utf8(DecodeFirst(b).value) <= b
  {
    hide Two, Three, Four, Utf8;
    var p := DecodeFirst(b).value;
    UnfoldUtf8(p);
    if b[0] < 0x80 {
      assert [p] <= b;
    } else if b[0] < 0xe0 {
      TwoParts(b[0], b[1]);
      assert b[..2] == [0xc0 + p / 64, 0x80 + p % 64];
    } else if b[0] < 0xf0 {
      ThreeParts(b[0], b[1], b[2]);
      assert b[..3] == [0xe0 + p / 4096, 0x80 + p / 64 % 64, 0x80 + p % 64];
    } else {
      FourParts(b[0], b[1], b[2], b[3]);
      assert b[..4] == [0xf0 + p / 262144, 0x80 + p / 4096 % 64, 0x80 + p / 64 % 64, 0x80 + p % 64];
    }
  }

  lemma UnfoldUtf8(p: CodePoint)
    ensures p < 0x80 ==> Utf8(p) == [p]
    ensures 0x80 <= p < 0x800 ==> Utf8(p) == [0xc0 + p / 64, 0x80 + p % 64]
    ensures 0x800 <= p < 0x10000 && !Surrogate(p) ==> Utf8(p) == [0xe0 + p / 4096, 0x80 + p / 64 % 64, 0x80 + p % 64]
    ensures 0x10000 <= p ==> Utf8(p) == [0xf0 + p / 262144, 0x80 + p / 4096 % 64, 0x80 + p / 64 % 64, 0x80 + p % 64]
  {
  }

  lemma TwoParts(x: int, y: int)
    requires 0xc2 <= x < 0xe0 && 0x80 <= y < 0xc0
    ensures var p := Two(x, y); 0x80 <= p < 0x800 && p / 64 == x - 0xc0 && p % 64 == y - 0x80
  {
  }

  lemma ThreeOf(p: int)
    requires 0x800 <= p < 0x10000
    ensures 0xe0 <= 0xe0 + p / 4096 < 0xf0 && Three(0xe0 + p / 4096, 0x80 + p / 64 % 64, 0x80 + p % 64) == p
  {
    assert p / 64 / 64 == p / 4096;
  }

  lemma FourOf(p: int)
    requires 0x10000 <= p < 0x110000
    ensures 0xf0 <= 0xf0 + p / 262144 < 0xf5
    ensures Four(0xf0 + p / 262144, 0x80 + p / 4096 % 64, 0x80 + p / 64 % 64, 0x80 + p % 64) == p
  {
    assert p / 64 / 64 == p / 4096 && p / 4096 / 64 == p / 262144;
  }

  lemma FirstOfEncoded(p: CodePoint, rest: seq<byte>)
    requires !Surrogate(p)
    ensures DecodeFirst(Utf8(p) + rest) == Some(p)
  {
    hide Three, Four, Utf8;
    var b := Utf8(p) + rest;
    UnfoldUtf8(p);
    assert b[0] == Utf8(p)[0];
    if p >= 0x80 { assert b[1] == Utf8(p)[1]; }
    if p >= 0x800 { assert b[2] == Utf8(p)[2]; }
    if p >= 0x10000 {
      assert b[3] == Utf8(p)[3];
      FourOf(p);
    } else if p >= 0x800 {
      ThreeOf(p);
    }
  }

  function DecodeUtf8(b: seq<byte>): (r: Option<seq<CodePoint>>) {
    if b == [] then Some([])
    else
      match DecodeFirst(b)
      case None => None
      case Some(p) =>
        FirstIsEncoded(b);
        match DecodeUtf8(b[|Utf8(p)|..])
        case None => None
        case Some(rest) => Some([p] + rest)
  }

  lemma NothingEncoded()
    ensures Encode([]) == []
  {
  }

  lemma {:induction false} DecodedIsEncoded(b: seq<byte>)
    requires DecodeUtf8(b).Some?
    ensures Scalars(DecodeUtf8(b).value) && Encode(DecodeUtf8(b).value) == b
    decreases |b|
  {
    hide Utf8, DecodeFirst, Surrogate, Encode;
    if b == [] {
      NothingEncoded();
    } else {
      var p := DecodeFirst(b).value;
      var n := |Utf8(p)|;
      FirstIsEncoded(b);
      DecodedIsEncoded(b[n..]);
      var rest := DecodeUtf8(b[n..]).value;
      EncodeStep([p] + rest);
      assert ([p] + rest)[1..] == rest;
      assert b == b[..n] + b[n..];
    }
  }

  lemma {:induction false} EncodedIsDecoded(text: seq<CodePoint>)
    requires Scalars(text)
    ensures DecodeUtf8(Encode(text)) == Some(text)
  {
    hide Utf8, DecodeFirst, Surrogate;
    if text != [] {
      var p, rest := text[0], Encode(text[1..]);
      FirstOfEncoded(p, rest);
      EncodedIsDecoded(text[1..]);
      assert Encode(text) == Utf8(p) + rest;
      assert Encode(text)[|Utf8(p)|..] == rest;
      assert text == [p] + text[1..];
    }
  }

  /** The decoder accepts exactly the encodings of texts without surrogates, and gives the text back. */
  lemma DecodeIff(b: seq<byte>, text: seq<CodePoint>)
    ensures DecodeUtf8(b) == Some(text) <==> Scalars(text) && Encode(text) == b
  {
    hide Encode, DecodeUtf8, Scalars;
    if DecodeUtf8(b).Some? { DecodedIsEncoded(b); }
    if Scalars(text) { EncodedIsDecoded(text); }
  }

  /** The byte order mark. */
  const MARK: seq<byte> := [0xef, 0xbb, 0xbf]

  /** `new TextDecoder('utf-8', { fatal: true }).decode`: one byte order mark in front is dropped. */
  function DecodeText(b: seq<byte>): (r: Option<seq<CodePoint>>) {
    DecodeUtf8(if MARK <= b then b[3..] else b)
  }

  predicate AllAscii(s: seq<int>) { forall i :: 0 <= i < |s| ==> 0 <= s[i] < 128 }

  lemma {:induction false} AsciiIsItself(s: seq<byte>)
    requires AllAscii(s)
    ensures Encode(s) == s && Scalars(s)
  {
    if s != [] {
      AsciiIsItself(s[1..]);
      assert Encode(s) == Utf8(s[0]) + Encode(s[1..]);
      assert s == [s[0]] + s[1..];
    }
  }

  lemma NoMark(s: seq<byte>)
    requires AllAscii(s)
    ensures !(MARK <= s)
  {
    assert |s| > 0 && s[0] == 0xef ==> !AllAscii(s);
  }

  /** ASCII text is read as it stands, with or without a byte order mark, and no other octets are read as that text. */
  lemma AsciiDecodes(b: seq<byte>, s: seq<byte>)
    requires AllAscii(s)
    ensures DecodeText(b) == Some(s) <==> b == s || b == MARK + s
  {
    hide Encode, DecodeUtf8, Scalars, AllAscii;
    AsciiIsItself(s);
    NoMark(s);
    var rest := if MARK <= b then b[3..] else b;
    DecodeIff(rest, s);
    MarkSplits(b, s);
  }

  lemma MarkSplits(b: seq<byte>, s: seq<byte>)
    ensures |MARK| == 3 && (MARK <= b ==> b == MARK + b[3..])
    ensures MARK <= MARK + s && (MARK + s)[3..] == s
  {
  }
}
