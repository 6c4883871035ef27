/** The two selector-path checks: the adapter's, by splitting, and the helper's, by one pass over the octets. */
module Selector {
  import opened Bytes
  import opened HelperLimits
  import opened Splitting
  import opened Unicode

  const DOT: int := '.' as int
  const BACKSLASH: int := '\\' as int

  predicate Control(x: int) { x < 0x20 || x == 0x7f }

  predicate NoControl(s: seq<int>) { forall i :: 0 <= i < |s| ==> !Control(s[i]) }

  /** A path component the adapter allows. */
  predicate PlainComponent(c: seq<int>) { c != [] && c != [DOT] && c != [DOT, DOT] }

  /** `requireRelativeSelectorPath` */
  predicate AdapterAccepts(path: seq<CodePoint>) {
    && path != []
    && path[0] != SLASH
    && path[|path| - 1] != SLASH
    && BACKSLASH !in path
    && |Encode(path)| <= MAX_SELECTOR_BYTES
    && NoControl(path)
    && (forall c :: c in Split<CodePoint>(path, SLASH) ==> PlainComponent(c))
  }

  // ---- The helper.

  predicate HelperComponent(c: seq<byte>) { PlainComponent(c) && |c| <= NAME_MAX }

  predicate HelperComponents(bytes: seq<byte>) { forall c :: c in Split<byte>(bytes, SLASH) ==> HelperComponent(c) }

  predicate HelperAccepts(bytes: seq<byte>) {
    && bytes != [] && |bytes| <= MAX_SELECTOR_BYTES
    && BACKSLASH !in bytes
    && NoControl(bytes)
    && HelperComponents(bytes)
  }

  lemma FirstComponent(bytes: seq<byte>, k: nat)
    requires k < |bytes| && bytes[k] == SLASH && SLASH !in bytes[..k]
    ensures HelperComponents(bytes) <==> HelperComponent(bytes[..k]) && HelperComponents(bytes[k + 1..])
  {
    hide HelperComponent, Split;
    SplitFirst<byte>(bytes[..k], bytes[k + 1..], SLASH);
    assert bytes == bytes[..k] + [SLASH] + bytes[k + 1..];
    var rest := Split<byte>(bytes[k + 1..], SLASH);
    assert forall c :: c in Split<byte>(bytes, SLASH) <==> c == bytes[..k] || c in rest;
  }

  lemma LastComponent(bytes: seq<byte>)
    requires SLASH !in bytes
    ensures HelperComponents(bytes) <==> HelperComponent(bytes)
  {
    SplitNone<byte>(bytes, SLASH);
  }

  /** A leading or trailing slash leaves an empty component. */
  lemma {:induction false} EdgeSlash(bytes: seq<byte>)
    requires bytes != [] && (bytes[0] == SLASH || bytes[|bytes| - 1] == SLASH)
    ensures !HelperComponents(bytes)
    decreases |bytes|
  {
    hide IndexOf, Split;
    var k := IndexOf<byte>(bytes, SLASH);
    assert bytes[|bytes| - 1] == SLASH ==> bytes[|bytes| - 1] in bytes;
    if k < |bytes| {
      FirstComponent(bytes, k);
      if k + 1 == |bytes| {
        LastComponent(bytes[k + 1..]);
      } else if bytes[0] != SLASH {
        EdgeSlash(bytes[k + 1..]);
      }
    }
  }

  /** `validate_selector_path` with `allow_empty` false. */
  method ValidateSelector(path: seq<byte>) returns (ok: bool)
    ensures ok <==> HelperAccepts(path)
  {
    hide HelperComponents, HelperComponent, Split;
    var length := |path|;
    if length == 0 {
      return false;
    }
    if length > MAX_SELECTOR_BYTES || path[0] == SLASH || path[length - 1] == SLASH || BACKSLASH in path {
      if path[0] == SLASH || path[length - 1] == SLASH { EdgeSlash(path); }
      return false;
    }
    var componentLength := 0;
    var componentStart := 0;
    for index := 0 to length
      invariant 0 <= componentStart <= index && componentLength == index - componentStart
      invariant SLASH !in path[componentStart..index]
      invariant forall i :: 0 <= i < index ==> !Control(path[i])
      invariant HelperComponents(path) <==> HelperComponents(path[componentStart..])
    {
      if Control(path[index]) {
        return false;
      }
      if path[index] == SLASH {
        var tail := path[componentStart..];
        assert tail[..componentLength] == path[componentStart..index] && tail[componentLength + 1..] == path[index + 1..];
        FirstComponent(tail, componentLength);
        var good := CheckComponent(path, componentStart, componentLength);
        if !good {
          return false;
        }
        componentStart := index + 1;
        componentLength := 0;
      } else {
        assert path[componentStart..index + 1] == path[componentStart..index] + [path[index]];
        componentLength := componentLength + 1;
      }
    }
    assert path[componentStart..length] == path[componentStart..];
    LastComponent(path[componentStart..]);
    ok := CheckComponent(path, componentStart, componentLength);
  }

  /** The condition at the end of a component. */
  method CheckComponent(path: seq<byte>, start: nat, length: nat) returns (ok: bool)
    requires start + length <= |path|
    ensures ok <==> HelperComponent(path[start..start + length])
  {
    var c := path[start..start + length];
    ok := !(length == 0 || length > NAME_MAX
            || (length == 1 && path[start] == DOT)
            || (length == 2 && path[start] == DOT && path[start + 1] == DOT));
    assert length == 1 ==> c == [path[start]];
    assert length == 2 ==> c == [path[start], path[start + 1]];
  }

  // ---- The two agree.

  /** An ASCII octet occurs in the encoding exactly where its code point occurs in the path. */
  lemma {:induction false} AsciiPreserved(path: seq<CodePoint>, x: byte)
    requires x < 0x80
    ensures x in Encode(path) <==> x in path
  {
    if path != [] {
      AsciiPreserved(path[1..], x);
      assert path == [path[0]] + path[1..];
      if path[0] >= 0x80 { assert x !in Utf8(path[0]); }
    }
  }

  lemma EncodeOne(x: byte)
    requires x < 0x80
    ensures Encode([x]) == [x]
  {
    assert [x][1..] == [];
    assert Encode([x]) == Utf8(x) + Encode([x][1..]);
  }

  /** Splitting the octets is encoding the split code points. */
  lemma {:induction false} SplitEncoded(path: seq<CodePoint>)
    ensures |Split<byte>(Encode(path), SLASH)| == |Split<CodePoint>(path, SLASH)|
    ensures forall i :: 0 <= i < |Split<CodePoint>(path, SLASH)| ==> Split<byte>(Encode(path), SLASH)[i] == Encode(Split<CodePoint>(path, SLASH)[i])
    decreases |path|
  {
    hide IndexOf, Utf8;
    var k := IndexOf<CodePoint>(path, SLASH);
    AsciiPreserved(path[..k], SLASH);
    if k == |path| {
      assert path[..k] == path;
      SplitNone<byte>(Encode(path), SLASH);
    } else {
      assert path == path[..k] + ([SLASH] + path[k + 1..]);
      EncodeAppend(path[..k], [SLASH] + path[k + 1..]);
      EncodeAppend([SLASH], path[k + 1..]);
      EncodeOne(SLASH);
      assert Encode(path) == Encode(path[..k]) + [SLASH] + Encode(path[k + 1..]);
      SplitFirst<byte>(Encode(path[..k]), Encode(path[k + 1..]), SLASH);
      SplitEncoded(path[k + 1..]);
    }
  }

  lemma NoControlConcat(a: seq<int>, b: seq<int>)
    ensures NoControl(a + b) <==> NoControl(a) && NoControl(b)
  {
    hide Control;
    if NoControl(a + b) {
      forall i | 0 <= i < |a| ensures !Control(a[i]) { assert (a + b)[i] == a[i]; }
      forall i | 0 <= i < |b| ensures !Control(b[i]) { assert (a + b)[|a| + i] == b[i]; }
    }
  }

  lemma {:induction false} ControlPreserved(path: seq<CodePoint>)
    ensures NoControl(Encode(path)) <==> NoControl(path)
  {
    hide NoControl, Utf8;
    if path == [] {
      assert Encode(path) == [] == path;
    } else {
      ControlPreserved(path[1..]);
      HeadControl(path[0]);
      NoControlConcat(Utf8(path[0]), Encode(path[1..]));
      NoControlConcat([path[0]], path[1..]);
      assert path == [path[0]] + path[1..];
    }
  }

  lemma HeadControl(p: CodePoint)
    ensures NoControl(Utf8(p)) <==> NoControl([p])
  {
    assert [p][0] == p;
    if p < 0x80 { assert Utf8(p)[0] == p; }
  }

  lemma ComponentPreserved(c: seq<CodePoint>)
    ensures PlainComponent(Encode(c)) <==> PlainComponent(c)
  {
    if |c| == 1 {
      OnePoint(c);
    } else if |c| >= 2 {
      TwoPoints(c);
    }
  }

  lemma OnePoint(c: seq<CodePoint>)
    requires |c| == 1
    ensures PlainComponent(Encode(c)) <==> PlainComponent(c)
  {
    assert c[1..] == [] && c == [c[0]];
    assert Encode(c) == Utf8(c[0]) + [];
    if c[0] >= 0x80 { assert Encode(c)[0] >= 0x80; }
  }

  lemma DotPoint(p: CodePoint)
    requires Utf8(p) == [DOT]
    ensures p == DOT
  {
    hide Utf8;
  }

  lemma TwoDots(c: seq<CodePoint>)
    requires |c| >= 2 && Encode(c) == [DOT, DOT]
    ensures c == [DOT, DOT]
  {
    hide Encode, Utf8;
    var head, tail := Utf8(c[0]), Encode(c[1..]);
    EncodeStep(c);
    EncodeStep(c[1..]);
    assert |head| == 1 && |tail| == 1 && |c| == 2;
    assert head[0] == Encode(c)[0] && tail[0] == Encode(c)[1];
    DotPoint(c[0]);
    assert tail == Utf8(c[1]);
    DotPoint(c[1]);
  }

  lemma TwoPoints(c: seq<CodePoint>)
    requires |c| >= 2
    ensures PlainComponent(Encode(c)) <==> PlainComponent(c)
  {
    hide Encode, Utf8;
    assert |Encode(c)| >= 2;
    if Encode(c) == [DOT, DOT] { TwoDots(c); }
    if c == [DOT, DOT] { EncodedDots(); }
  }

  lemma EncodedDots()
    ensures Encode([DOT, DOT]) == [DOT, DOT]
  {
    var c: seq<CodePoint> := [DOT, DOT];
    assert c[1..] == [DOT] && c[1..][1..] == [];
    assert Encode(c[1..]) == Utf8(DOT) + [];
  }

  lemma {:induction false} LastOctet(path: seq<CodePoint>)
    requires path != [] && path[|path| - 1] == SLASH
    ensures Encode(path) != [] && Encode(path)[|Encode(path)| - 1] == SLASH
  {
    if |path| > 1 {
      LastOctet(path[1..]);
    } else {
      assert Encode(path) == Utf8(path[0]) + Encode(path[1..]);
    }
  }

  /** A leading or trailing slash leaves the helper an empty component. */
  lemma AdapterEdges(path: seq<CodePoint>)
    requires path != [] && HelperComponents(Encode(path))
    ensures path[0] != SLASH && path[|path| - 1] != SLASH
  {
    hide HelperComponents, Encode, Utf8;
    var octets := Encode(path);
    EncodeStep(path);
    assert octets[0] == Utf8(path[0])[0];
    if path[|path| - 1] == SLASH {
      LastOctet(path);
    }
    if octets[0] == SLASH || octets[|octets| - 1] == SLASH {
      EdgeSlash(octets);
    }
  }

  /**
   * The helper accepts the octets of a path exactly when the adapter accepts the path and no component
   * is longer than NAME_MAX octets.
   */
  lemma ScannersAgree(path: seq<CodePoint>)
    ensures HelperAccepts(Encode(path)) <==>
              AdapterAccepts(path) && forall c :: c in Split<CodePoint>(path, SLASH) ==> |Encode(c)| <= NAME_MAX
  {
    hide Split, Encode, Utf8, PlainComponent, NoControl;
    if path != [] {
      AsciiPreserved(path, BACKSLASH);
      ControlPreserved(path);
      ComponentsAgree(path);
      if HelperComponents(Encode(path)) { AdapterEdges(path); }
    } else {
      assert Encode(path) == [] by { EncodeEmpty(path); }
    }
  }

  lemma EncodeEmpty(path: seq<CodePoint>)
    requires path == []
    ensures Encode(path) == []
  {
  }

  lemma ComponentsAgree(path: seq<CodePoint>)
    ensures HelperComponents(Encode(path)) <==>
      (forall c :: c in Split<CodePoint>(path, SLASH) ==> PlainComponent(c)) && forall c :: c in Split<CodePoint>(path, SLASH) ==> |Encode(c)| <= NAME_MAX
  {
    hide Split, Encode, Utf8, PlainComponent;
    SplitEncoded(path);
    var parts, coded := Split<CodePoint>(path, SLASH), Split<byte>(Encode(path), SLASH);
    forall i | 0 <= i < |parts| ensures PlainComponent(coded[i]) <==> PlainComponent(parts[i]) {
      ComponentPreserved(parts[i]);
    }
    if HelperComponents(Encode(path)) {
      forall c | c in parts ensures PlainComponent(c) && |Encode(c)| <= NAME_MAX {
        var i :| 0 <= i < |parts| && parts[i] == c;
        assert coded[i] in coded && HelperComponent(coded[i]);
      }
    } else {
      var d :| d in coded && !HelperComponent(d);
      var i :| 0 <= i < |coded| && coded[i] == d;
      assert parts[i] in parts;
    }
  }
}
